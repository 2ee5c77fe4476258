/** The repository helper: a repository named `owner/name`, the
    normalisation of its `w3c.json` record, and the decision `createContent`
    takes between reading a file and writing it. The HTTP calls themselves
    are not part of this model: the read's outcome is an input and the write
    request is the output. */
module GitHub {
  import opened Wrappers
  import opened Strings
  import opened Encoding
  import opened JsValues

  /** `name.split('/')[0]`. */
  function Owner(fullName: string): string {
    Split(fullName, '/')[0]
  }

  /** `name.split('/')[1]`, `undefined` when there is no `/`. */
  function RepoName(fullName: string): Option<string> {
    var parts := Split(fullName, '/');
    if |parts| > 1 then Some(parts[1]) else None
  }

  class Repository {
    var fullName: string
    var owner: string
    var name: Option<string>
    var ttl: Option<int>

    /** `new Repository(name, ttl)`. */
    constructor (fullName: string, ttl: Option<int>)
      ensures this.fullName == fullName
      ensures owner == Owner(fullName) && name == RepoName(fullName)
      ensures this.ttl == ttl
    {
      this.fullName := fullName;
      var parts := Split(fullName, '/');
      owner := parts[0];
      name := if |parts| > 1 then Some(parts[1]) else None;
      this.ttl := ttl;
    }

    /** `createContent(path, message, content, branch)` once the read of the
        file has settled with `file` (a response, or the error it rejected
        with). */
    method CreateContent(path: string, message: string, content: Option<string>, branch: string,
                         file: FileResponse)
      returns (r: Result<PutRequest, PublishError>)
      ensures r == PutDecision(fullName, path, message, content, branch, file)
    {
      var sha: Option<string> := None;
      if file.status == Some(200) {
        if file.kind != Some("file") {
          return Failure(NotAFile(path, file.kind));
        }
        sha := file.sha;
      } else if file.status == Some(404) {
      } else {
        return Failure(Rethrown(file));
      }
      if content.None? {
        return Failure(NoContent);
      }
      var encoded := EncodeContent(content.value);
      r := Success(PutRequest(fullName, path, message, encoded, sha, branch));
    }
  }

  /** The owner is the text before the first `/` and the name the text
      between the first and the second; without a `/` the owner is the whole
      text and there is no name. */
  lemma {:induction false} RepositoryNames(fullName: string)
    ensures '/' !in fullName ==> Owner(fullName) == fullName && RepoName(fullName).None?
    ensures '/' in fullName ==>
              var i := IndexOf(fullName, '/');
              var rest := fullName[i + 1..];
              var j := IndexOf(rest, '/');
              Owner(fullName) == fullName[..i]
              && RepoName(fullName) == Some(if j == -1 then rest else rest[..j])
  {
    SplitHead(fullName, '/');
    var i := IndexOf(fullName, '/');
    if i != -1 {
      SplitHead(fullName[i + 1..], '/');
    }
  }

  /** `owner/name` splits back into its owner and name. */
  lemma OwnerNameRoundTrip(owner: string, name: string)
    requires '/' !in owner && '/' !in name
    ensures Owner(owner + "/" + name) == owner
    ensures RepoName(owner + "/" + name) == Some(name)
  {
    var s := owner + "/" + name;
    assert s == owner + ("/" + name);
    IndexOfAfter(owner, "/" + name, '/');
    assert s[..|owner|] == owner;
    assert s[|owner| + 1..] == name;
    RepositoryNames(s);
  }

  /** The settled read of a file: its HTTP status (`None` for an error that
      carries none) and, for a response, the `type` and `sha` of its data
      (both `undefined` for a directory listing). */
  datatype FileResponse = FileResponse(status: Option<int>, kind: Option<string>, sha: Option<string>)

  /** The write request: `PUT /repos/:repo/contents/:path`. */
  datatype PutRequest = PutRequest(
    repo: string,
    path: string,
    message: string,
    content: string,
    sha: Option<string>,
    branch: string)

  datatype PublishError =
    | NotAFile(path: string, kind: Option<string>)
    | Rethrown(response: FileResponse)
    | NoContent

  /** What `createContent` does once the read has settled: an existing file
      is updated with its `sha`, a missing one is created, a non-file or any
      other outcome of the read is an error; a missing content fails when it
      is encoded. */
  function PutDecision(repo: string, path: string, message: string, content: Option<string>,
                       branch: string, file: FileResponse): Result<PutRequest, PublishError>
  {
    if file.status == Some(200) && file.kind != Some("file") then Failure(NotAFile(path, file.kind))
    else if file.status != Some(200) && file.status != Some(404) then Failure(Rethrown(file))
    else if content.None? then Failure(NoContent)
    else
      var sha := if file.status == Some(200) then file.sha else None;
      Success(PutRequest(repo, path, message, EncodeContent(content.value), sha, branch))
  }

  /** The cases of the decision, with the request a write carries. */
  lemma PutDecisionRule(repo: string, path: string, message: string, content: Option<string>,
                        branch: string, file: FileResponse)
    ensures var r := PutDecision(repo, path, message, content, branch, file);
            && (file.status == Some(200) && file.kind != Some("file") <==> r == Failure(NotAFile(path, file.kind)))
            && (file.status != Some(200) && file.status != Some(404) <==> r == Failure(Rethrown(file)))
            && (r.Success? <==> (file.status == Some(404) || (file.kind == Some("file") && file.status == Some(200)))
                                && content.Some?)
            && (r.Success? && file.status == Some(200) ==> r.value.sha == file.sha)
            && (r.Success? && file.status == Some(404) ==> r.value.sha == None)
  {
  }

  /** A write carries the repository, path, message and branch it was given,
      and as content the base64 text of the UTF-8 bytes of the text, which
      decodes back to it. */
  lemma PutCarries(repo: string, path: string, message: string, content: Option<string>,
                   branch: string, file: FileResponse)
    ensures var r := PutDecision(repo, path, message, content, branch, file);
            r.Success? ==>
              && r.value.repo == repo && r.value.path == path
              && r.value.message == message && r.value.branch == branch
              && r.value.content == Base64(Utf8(content.value))
              && match Base64Decode(r.value.content)
                 case None => false
                 case Some(bytes) => Utf8Decode(bytes) == content
  {
    if content.Some? {
      ContentRoundTrip(content.value);
    }
  }

  /** The `w3c.json` record of a repository; the getter normalises it in place. */
  class W3cRecord {
    var properties: map<string, JsValue>

    constructor (properties: map<string, JsValue>)
      ensures this.properties == properties
    {
      this.properties := properties;
    }

    /** A truthy `group` that is not an array is wrapped in a one-element array. */
    method NormalizeGroup()
      modifies this
      ensures properties == NormalizedGroup(old(properties))
    {
      if "group" in properties && JsTruthy(properties["group"]) && !properties["group"].JsArray? {
        properties := properties["group" := JsArray([properties["group"]])];
      }
    }
  }

  function NormalizedGroup(properties: map<string, JsValue>): map<string, JsValue> {
    if "group" in properties && JsTruthy(properties["group"]) && !properties["group"].JsArray? then
      properties["group" := JsArray([properties["group"]])]
    else properties
  }

  /** After normalising, a truthy group is a list; a scalar group is its
      only element; a list, a falsy or an absent group and every other
      property are left as they were. */
  lemma GroupRule(properties: map<string, JsValue>)
    ensures var n := NormalizedGroup(properties);
            && n.Keys == properties.Keys
            && (forall k :: k in properties && k != "group" ==> n[k] == properties[k])
            && ("group" in n && JsTruthy(n["group"]) ==> n["group"].JsArray?)
            && ("group" in properties && JsTruthy(properties["group"]) && !properties["group"].JsArray?
                ==> n["group"] == JsArray([properties["group"]]))
            && ("group" !in properties || !JsTruthy(properties["group"]) || properties["group"].JsArray?
                ==> n == properties)
  {
  }

  /** Normalising twice is normalising once. */
  lemma GroupIdempotent(properties: map<string, JsValue>)
    ensures NormalizedGroup(NormalizedGroup(properties)) == NormalizedGroup(properties)
  {
  }
}
