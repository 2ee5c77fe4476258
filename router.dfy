/** The driver (src/index.js): for every configured entry it loads the
    spreadsheet and saves it to each of its locations. Saving renders the
    document by the location's extension and sends it to the GitHub
    repository, branch and path that the `GH` pattern reads from the
    location. Loading, writing and logging are not part of this model: the
    loaded document and the settled writes are inputs, and the run yields the
    sequence of actions it takes. */
module Router {
  import opened Wrappers
  import opened Strings
  import opened SheetModel
  import opened JsValues
  import opened JsonRecord
  import Markdown
  import Html
  import GitHub
  import Encoding
  import opened Locations

  /** `JSON.stringify(doc, null, " ")`, which serialises what `doc.toJSON()`
      returns (an opaque function: the printed form is not part of this model). */
  const Stringify: JsonDoc -> string

  /** Why the promise of a save rejects before any request is made. */
  datatype Crash =
    | NotAString     // `location.endsWith` on a value that is not a string
    | NoHeaderRow    // the Markdown or HTML renderer reads `rows[0]` of a sheet without one

  /** The content for a location, chosen by its extension in the order
      `.json`, `.md`, `.html`; `None` for any other location. */
  function ContentFor(location: string, doc: Doc, options: Option<RenderOptions>): Result<Option<string>, Crash> {
    if EndsWith(location, ".json") then Success(Some(Stringify(Record(doc))))
    else if EndsWith(location, ".md") then
      if Renderable(doc) then Success(Some(Markdown.Text(doc, options))) else Failure(NoHeaderRow)
    else if EndsWith(location, ".html") then
      if Renderable(doc) then Success(Some(Html.Document(doc, options))) else Failure(NoHeaderRow)
    else Success(None)
  }

  /** At most one of the three extensions fits a location, so the order in
      which they are tried decides nothing. */
  lemma ExtensionsExclusive(location: string)
    ensures !(EndsWith(location, ".json") && EndsWith(location, ".md"))
    ensures !(EndsWith(location, ".json") && EndsWith(location, ".html"))
    ensures !(EndsWith(location, ".md") && EndsWith(location, ".html"))
  {
    if EndsWith(location, ".json") {
      EndsWithLast(location, ".json");
    }
    if EndsWith(location, ".md") {
      EndsWithLast(location, ".md");
    }
    if EndsWith(location, ".html") {
      EndsWithLast(location, ".html");
    }
  }

  /** The content is the record's serialisation, the Markdown text or the
      HTML page; only Markdown and HTML can fail, and only for a document
      with a sheet that has no header row to fall back on. */
  lemma ContentRule(location: string, doc: Doc, options: Option<RenderOptions>)
    ensures var c := ContentFor(location, doc, options);
            && (EndsWith(location, ".json") ==> c == Success(Some(Stringify(Record(doc)))))
            && (EndsWith(location, ".md") && Renderable(doc) ==> c == Success(Some(Markdown.Text(doc, options))))
            && (EndsWith(location, ".html") && Renderable(doc) ==> c == Success(Some(Html.Document(doc, options))))
            && (c.Failure? <==> (EndsWith(location, ".md") || EndsWith(location, ".html")) && !Renderable(doc))
            && (c == Success(None) <==>
                  !EndsWith(location, ".json") && !EndsWith(location, ".md") && !EndsWith(location, ".html"))
  {
    ExtensionsExclusive(location);
  }

  /** What `save_spreadsheet` does with one location: its promise rejects,
      it logs the location as invalid, or it asks for a write. */
  datatype SaveOutcome =
    | Crashed(crash: Crash)
    | InvalidLocation(location: string)
    | Publish(target: Target, content: Option<string>)

  /** `save_spreadsheet(location, doc, options)` up to the write: the content
      is rendered first, then the location is checked and parsed. A
      location that is `undefined` or not a string makes the promise reject. */
  function Save(location: Option<JsValue>, doc: Doc, options: Option<RenderOptions>): SaveOutcome {
    if location.None? || !location.value.JsString? then Crashed(NotAString)
    else
      var l := location.value.s;
      match ContentFor(l, doc, options)
      case Failure(crash) => Crashed(crash)
      case Success(content) =>
        match ParseLocation(l)
        case None => InvalidLocation(l)
        case Some(target) => Publish(target, content)
  }

  /** Only GitHub locations that match the pattern are written to: local
      paths and other URLs are reported invalid, never written. */
  lemma SaveRule(l: string, doc: Doc, options: Option<RenderOptions>)
    ensures var o := Save(Some(JsString(l)), doc, options);
            && (o.Publish? ==> StartsWith(l, GitHubPrefix) && ParseLocation(l) == Some(o.target)
                               && Success(o.content) == ContentFor(l, doc, options))
            && (ContentFor(l, doc, options).Success? && !StartsWith(l, GitHubPrefix) ==> o == InvalidLocation(l))
            && (ContentFor(l, doc, options).Success? && StartsWith(l, GitHubPrefix) && Search(l, 0).None?
                ==> o == InvalidLocation(l))
  {
  }

  /** The commit message of every write. */
  const SnapshotMessage: string := "Spreadsheet snapshot"

  /** `new Repository(repo).createContent(path, message, content, branch)`
      for a save that asks for a write, once the read of the file has
      settled with `file`. */
  function WriteFor(target: Target, content: Option<string>, file: GitHub.FileResponse)
    : Result<GitHub.PutRequest, GitHub.PublishError>
  {
    GitHub.PutDecision(target.repo, target.path, SnapshotMessage, content, target.branch, file)
  }

  /** A `.json` location on GitHub is written with the serialised record of
      the document, encoded so that it decodes back to that text, on the
      branch and at the path the location names. */
  lemma JsonPublished(owner: string, name: string, branch: string, path: string, doc: Doc,
                      options: Option<RenderOptions>, file: GitHub.FileResponse)
    requires owner != [] && name != [] && branch != []
    requires '/' !in owner && '/' !in name && '/' !in branch
    requires forall k :: 0 <= k < |path| ==> !IsLineTerminator(path[k])
    requires EndsWith(path, ".json")
    requires file.status == Some(404) || (file.status == Some(200) && file.kind == Some("file"))
    ensures var l := GitHubPrefix + owner + "/" + name + BlobSegment + branch + "/" + path;
            var o := Save(Some(JsString(l)), doc, options);
            && o == Publish(Target(owner + "/" + name, branch, path), Some(Stringify(Record(doc))))
            && var w := WriteFor(o.target, o.content, file);
               && w.Success?
               && w.value.repo == owner + "/" + name && w.value.branch == branch && w.value.path == path
               && Encoding.Base64Decode(w.value.content).Some?
               && Encoding.Utf8Decode(Encoding.Base64Decode(w.value.content).value) == Some(Stringify(Record(doc)))
  {
    var l := GitHubPrefix + owner + "/" + name + BlobSegment + branch + "/" + path;
    EndsWithPrepend(GitHubPrefix + owner + "/" + name + BlobSegment + branch + "/", path, ".json");
    ContentRule(l, doc, options);
    ParseCanonical(owner, name, branch, path);
    assert StartsWith(l, GitHubPrefix) by {
      assert l[..|GitHubPrefix|] == GitHubPrefix;
    }
    var target := Target(owner + "/" + name, branch, path);
    GitHub.PutDecisionRule(target.repo, target.path, SnapshotMessage, Some(Stringify(Record(doc))), target.branch, file);
    GitHub.PutCarries(target.repo, target.path, SnapshotMessage, Some(Stringify(Record(doc))), target.branch, file);
  }

  /** How a save that asked for a write is reported. */
  datatype Report = Updated | Created | UnexpectedStatus(status: int) | GotError

  /** The log line once the write has settled: `written` is the status of the
      `PUT` response, `None` when it rejected. Any error of `createContent`
      is reported the same way as a rejected write. */
  function ReportOf(write: Result<GitHub.PutRequest, GitHub.PublishError>, written: Option<int>): Report {
    if write.Failure? || written.None? then GotError
    else if written.value == 200 then Updated
    else if written.value == 201 then Created
    else UnexpectedStatus(written.value)
  }

  /** 200 is an update, 201 a creation, any other status is unexpected, and
      an error of the decision or of the write is a reported error. */
  lemma ReportRule(write: Result<GitHub.PutRequest, GitHub.PublishError>, written: Option<int>)
    ensures ReportOf(write, written) == Updated <==> write.Success? && written == Some(200)
    ensures ReportOf(write, written) == Created <==> write.Success? && written == Some(201)
    ensures ReportOf(write, written).UnexpectedStatus? <==>
              write.Success? && written.Some? && written.value != 200 && written.value != 201
    ensures ReportOf(write, written).UnexpectedStatus? ==> ReportOf(write, written).status == written.value
    ensures ReportOf(write, written) == GotError <==> write.Failure? || written.None?
  {
  }

  /** An entry of the configuration: `id`, `location` and `options` as read
      from the file (`None` where the key is missing), and `loaded`, what
      loading the spreadsheet with key `ExtractId(id)` from the Google API
      yields (`None` when it fails). */
  datatype Entry = Entry(
    id: Option<JsValue>,
    location: Option<JsValue>,
    options: Option<RenderOptions>,
    loaded: Option<Doc>)

  /** The actions of a run, each naming the entry it belongs to. */
  datatype Action =
    | InvalidEntry(index: nat)
    | NotLoaded(index: nat)
    | Saved(index: nat, outcome: SaveOutcome)

  /** `entry.id === null || entry.location === null`: a missing key is not `null`. */
  predicate NullEntry(entry: Entry) {
    entry.id == Some(JsNull) || entry.location == Some(JsNull)
  }

  /** Whether `fetch_spreadsheet(entry.id)` resolves: it calls
      `id.startsWith` first, so an id that is not a string makes it reject
      whatever the API would have returned. */
  predicate Loads(entry: Entry) {
    entry.id.Some? && entry.id.value.JsString? && entry.loaded.Some?
  }

  /** One save per element of an array of locations, in order. */
  function SavesOf(index: nat, locations: seq<JsValue>, doc: Doc, options: Option<RenderOptions>): seq<Action> {
    if locations == [] then []
    else SavesOf(index, locations[..|locations| - 1], doc, options)
         + [Saved(index, Save(Some(locations[|locations| - 1]), doc, options))]
  }

  /** What the loop does with entry `index`. */
  function EntryActions(index: nat, entry: Entry): seq<Action> {
    if NullEntry(entry) then [InvalidEntry(index)]
    else if !Loads(entry) then [NotLoaded(index)]
    else if entry.location.Some? && entry.location.value.JsArray? then
      SavesOf(index, entry.location.value.items, entry.loaded.value, entry.options)
    else [Saved(index, Save(entry.location, entry.loaded.value, entry.options))]
  }

  /** The whole run: the entries in order. */
  function Plan(entries: seq<Entry>): seq<Action> {
    if entries == [] then []
    else Plan(entries[..|entries| - 1]) + EntryActions(|entries| - 1, entries[|entries| - 1])
  }

  /** Whether one of the actions is a save whose promise rejects. */
  predicate Crashes(actions: seq<Action>) {
    exists k :: 0 <= k < |actions| && actions[k].Saved? && actions[k].outcome.Crashed?
  }

  /** Whether `run` waits for the network at the `await` of this entry: it is
      not null and its id is a string. The load of any other non-null entry
      rejects at once, and `run` resumes before the runtime looks at the
      promises left rejected without a handler. */
  predicate Awaits(entry: Entry) {
    !NullEntry(entry) && entry.id.Some? && entry.id.value.JsString?
  }

  /** Per entry, whether one of its saves rejects. */
  function Rejections(entries: seq<Entry>): (r: seq<bool>)
    ensures |r| == |entries|
    ensures forall k :: 0 <= k < |entries| ==> r[k] == Crashes(EntryActions(k, entries[k]))
  {
    seq(|entries|, k requires 0 <= k < |entries| => Crashes(EntryActions(k, entries[k])))
  }

  /** Per entry, whether `run` waits for the network on it. */
  function Waits(entries: seq<Entry>): (w: seq<bool>)
    ensures |w| == |entries|
    ensures forall k :: 0 <= k < |entries| ==> w[k] == Awaits(entries[k])
  {
    seq(|entries|, k requires 0 <= k < |entries| => Awaits(entries[k]))
  }

  /** Whether one of the first `j` flags is set. */
  predicate AnyBefore(flags: seq<bool>, j: nat)
    requires j <= |flags|
  {
    exists k :: 0 <= k < j && flags[k]
  }

  /** Where a loop that waits at the positions `waits` and sees rejections at
      the positions `rejects` stops, from position `i` on, when a rejection
      ends the process: at its first wait once a rejection has happened
      (`crashed` tells whether one already has). */
  function StopFrom(waits: seq<bool>, rejects: seq<bool>, i: nat, crashed: bool): (n: nat)
    requires |waits| == |rejects| && i <= |waits|
    ensures i <= n <= |waits|
    decreases |waits| - i
  {
    if i == |waits| || (crashed && waits[i]) then i
    else StopFrom(waits, rejects, i + 1, crashed || rejects[i])
  }

  /** The loop waits only while nothing has rejected, and stops short only
      at a wait that comes after a rejection. */
  lemma {:induction false} StopFromRule(waits: seq<bool>, rejects: seq<bool>, i: nat, crashed: bool)
    requires |waits| == |rejects| && i <= |waits|
    requires crashed == AnyBefore(rejects, i)
    ensures forall j :: i <= j < StopFrom(waits, rejects, i, crashed) && waits[j] ==> !AnyBefore(rejects, j)
    ensures StopFrom(waits, rejects, i, crashed) < |waits| ==>
              waits[StopFrom(waits, rejects, i, crashed)] && AnyBefore(rejects, StopFrom(waits, rejects, i, crashed))
    decreases |waits| - i
  {
    if i < |waits| && !(crashed && waits[i]) {
      assert AnyBefore(rejects, i + 1) == (crashed || rejects[i]) by {
        if rejects[i] {
          assert 0 <= i < i + 1 && rejects[i];
        }
      }
      StopFromRule(waits, rejects, i + 1, crashed || rejects[i]);
    }
  }

  /** The number of entries `run` handles before a rejected save ends the process. */
  function Reached(entries: seq<Entry>): (n: nat)
    ensures n <= |entries|
  {
    StopFrom(Waits(entries), Rejections(entries), 0, false)
  }

  /** `run()`: the loop over the entries. The saves are neither awaited nor
      caught, so a save that rejects leaves a rejection without a handler;
      `exitOnRejection` says whether the runtime then ends the process (the
      default of Node.js from version 15 on) or only warns. */
  method Run(entries: seq<Entry>, exitOnRejection: bool) returns (actions: seq<Action>)
    ensures actions == Plan(entries[..if exitOnRejection then Reached(entries) else |entries|])
  {
    actions := [];
    var crashed := false;
    var index := 0;
    while index < |entries|
      invariant 0 <= index <= |entries|
      invariant actions == Plan(entries[..index])
      invariant exitOnRejection ==> StopFrom(Waits(entries), Rejections(entries), index, crashed) == Reached(entries)
    {
      PlanStep(entries, index);
      var entry := entries[index];
      if entry.id == Some(JsNull) || entry.location == Some(JsNull) {
        StopStep(entries, index, crashed);
        actions := actions + [InvalidEntry(index)];
        index := index + 1;
        continue;
      }
      if exitOnRejection && crashed && entry.id.Some? && entry.id.value.JsString? {
        break;
      }
      if exitOnRejection {
        StopStep(entries, index, crashed);
      }
      if !(entry.id.Some? && entry.id.value.JsString?) || entry.loaded.None? {
        actions := actions + [NotLoaded(index)];
        index := index + 1;
        continue;
      }
      var doc := entry.loaded.value;
      var saves;
      if entry.location.Some? && entry.location.value.JsArray? {
        saves := FanOut(index, entry.location.value.items, doc, entry.options);
      } else {
        saves := [Saved(index, Save(entry.location, doc, entry.options))];
      }
      actions := actions + saves;
      crashed := crashed || Crashes(saves);
      index := index + 1;
    }
    assert entries[..|entries|] == entries;
  }

  lemma StopStep(entries: seq<Entry>, index: nat, crashed: bool)
    requires index < |entries| && !(crashed && Awaits(entries[index]))
    ensures StopFrom(Waits(entries), Rejections(entries), index, crashed)
            == StopFrom(Waits(entries), Rejections(entries), index + 1, crashed || Crashes(EntryActions(index, entries[index])))
  {
  }

  lemma PlanStep(entries: seq<Entry>, index: nat)
    requires index < |entries|
    ensures Plan(entries[..index + 1]) == Plan(entries[..index]) + EntryActions(index, entries[index])
  {
    assert entries[..index + 1][..index] == entries[..index];
  }

  /** `entry.location.forEach(location => save_spreadsheet(...))`. */
  method FanOut(index: nat, locations: seq<JsValue>, doc: Doc, options: Option<RenderOptions>)
    returns (saves: seq<Action>)
    ensures saves == SavesOf(index, locations, doc, options)
  {
    saves := [];
    var k := 0;
    while k < |locations|
      invariant 0 <= k <= |locations|
      invariant saves == SavesOf(index, locations[..k], doc, options)
    {
      assert locations[..k + 1][..k] == locations[..k];
      saves := saves + [Saved(index, Save(Some(locations[k]), doc, options))];
      k := k + 1;
    }
    assert locations[..k] == locations;
  }

  /** An array of locations yields one save per element, in order. */
  lemma {:induction false} SavesOfRule(index: nat, locations: seq<JsValue>, doc: Doc, options: Option<RenderOptions>)
    ensures |SavesOf(index, locations, doc, options)| == |locations|
    ensures forall k :: 0 <= k < |locations| ==>
              SavesOf(index, locations, doc, options)[k] == Saved(index, Save(Some(locations[k]), doc, options))
  {
    if locations != [] {
      var init := locations[..|locations| - 1];
      SavesOfRule(index, init, doc, options);
      forall k | 0 <= k < |locations| - 1
        ensures SavesOf(index, locations, doc, options)[k] == Saved(index, Save(Some(locations[k]), doc, options))
      {
        assert SavesOf(index, locations, doc, options)[k] == SavesOf(index, init, doc, options)[k];
        assert init[k] == locations[k];
      }
    }
  }

  /** An entry with a `null` id or location, or whose document did not load,
      saves nothing; any other entry with a string (or any non-array)
      location saves exactly once. */
  lemma EntryRule(index: nat, entry: Entry)
    ensures NullEntry(entry) ==> EntryActions(index, entry) == [InvalidEntry(index)]
    ensures !NullEntry(entry) && !Loads(entry) ==> EntryActions(index, entry) == [NotLoaded(index)]
    ensures !NullEntry(entry) && Loads(entry) && !(entry.location.Some? && entry.location.value.JsArray?)
            ==> EntryActions(index, entry) == [Saved(index, Save(entry.location, entry.loaded.value, entry.options))]
    ensures forall a :: a in EntryActions(index, entry) ==> a.index == index
    ensures forall a :: a in EntryActions(index, entry) && a.Saved? ==> !NullEntry(entry) && Loads(entry)
  {
    if !NullEntry(entry) && Loads(entry) && entry.location.Some? && entry.location.value.JsArray? {
      SavesOfRule(index, entry.location.value.items, entry.loaded.value, entry.options);
    }
  }

  /** The run takes the entries in order and goes on after a skipped one:
      actions name entries in non-decreasing order, and every save belongs to
      an entry that is not null and whose document loaded. */
  lemma {:induction false} PlanRule(entries: seq<Entry>)
    ensures forall i, j :: 0 <= i < j < |Plan(entries)| ==> Plan(entries)[i].index <= Plan(entries)[j].index
    ensures forall a :: a in Plan(entries) ==> a.index < |entries|
    ensures forall a :: a in Plan(entries) && a.Saved? ==>
              !NullEntry(entries[a.index]) && Loads(entries[a.index])
  {
    if entries != [] {
      var n := |entries| - 1;
      var init := entries[..n];
      PlanRule(init);
      EntryRule(n, entries[n]);
      var before := Plan(init);
      var last := EntryActions(n, entries[n]);
      assert Plan(entries) == before + last;
      forall a | a in Plan(entries)
        ensures a.index < |entries|
        ensures a.Saved? ==> !NullEntry(entries[a.index]) && Loads(entries[a.index])
      {
        if a in before {
          assert entries[a.index] == init[a.index];
        }
      }
      forall i, j | 0 <= i < j < |Plan(entries)|
        ensures Plan(entries)[i].index <= Plan(entries)[j].index
      {
        var p := Plan(entries);
        if j < |before| {
          assert p[i] == before[i] && p[j] == before[j];
        } else if i < |before| {
          assert p[i] == before[i] && p[i] in before;
          assert p[j] == last[j - |before|] && p[j] in last;
        } else {
          assert p[i] == last[i - |before|] && p[i] in last;
          assert p[j] == last[j - |before|] && p[j] in last;
        }
      }
    }
  }

  /** The actions of the first `n` entries begin the actions of all of them. */
  lemma {:induction false} PlanPrefix(entries: seq<Entry>, n: nat)
    requires n <= |entries|
    ensures Plan(entries[..n]) <= Plan(entries)
    decreases |entries|
  {
    if n < |entries| {
      var init := entries[..|entries| - 1];
      assert init[..n] == entries[..n];
      PlanPrefix(init, n);
    } else {
      assert entries[..n] == entries;
    }
  }

  /** When a rejected save ends the process, `run` goes out to the network
      only while no save has rejected; it stops short only at such a wait
      after a rejection, having taken a prefix of the actions of the whole
      run; and when no save rejects it handles every entry. */
  lemma ReachedRule(entries: seq<Entry>)
    ensures forall j :: 0 <= j < Reached(entries) && Awaits(entries[j]) ==>
              forall k :: 0 <= k < j ==> !Crashes(EntryActions(k, entries[k]))
    ensures Reached(entries) < |entries| ==>
              && Awaits(entries[Reached(entries)])
              && exists k :: 0 <= k < Reached(entries) && Crashes(EntryActions(k, entries[k]))
    ensures (forall k :: 0 <= k < |entries| ==> !Crashes(EntryActions(k, entries[k]))) ==>
              Reached(entries) == |entries|
    ensures Plan(entries[..Reached(entries)]) <= Plan(entries)
  {
    var waits, rejects := Waits(entries), Rejections(entries);
    StopFromRule(waits, rejects, 0, false);
    var n := Reached(entries);
    PlanPrefix(entries, n);
    if n < |entries| {
      var k :| 0 <= k < n && rejects[k];
      assert Crashes(EntryActions(k, entries[k]));
    }
  }
}
