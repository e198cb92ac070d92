/** `upload_file` of `src/sharepoint_client.py` and the three requests
    behind it: the single PUT of a small file, the upload session and chunk
    loop of a large one, and the metadata PATCH that follows a successful
    upload. */
module Upload {
  import opened Base
  import opened Strings
  import opened Graph
  import opened Chunks
  import opened Decimal
  import Site

  /** `_upload_small_file`: one PUT of the whole content to the item path.
      The path is rooted at the drive root and, for a folder and name that
      do not meet in three slashes, holds no empty segment. */
  function UploadSmall(driveId: string, folder: string, name: string, net: Call -> Reply): (e: Exchange<Reply>)
    ensures e.calls == [PutContent(driveId, ItemPath(folder, name))]
    ensures var reply := net(PutContent(driveId, ItemPath(folder, name)));
      e.result == if RaisesForStatus(reply.status) then Err(HttpError(reply.status)) else Ok(reply)
    ensures e.calls[0].driveId == driveId
    ensures |e.calls[0].itemPath| > 0 && e.calls[0].itemPath[0] == '/'
    ensures NoTripleSlash(folder + "/" + name) ==> NoDoubleSlash(e.calls[0].itemPath)
    ensures e.result.Ok? <==> !RaisesForStatus(net(e.calls[0]).status)
  {
    ItemPathShape(folder, name);
    var call := PutContent(driveId, ItemPath(folder, name));
    var reply := net(call);
    Exchange(if RaisesForStatus(reply.status) then Err(HttpError(reply.status)) else Ok(reply), [call])
  }

  /** `_create_upload_session` followed by `session["uploadUrl"]`. */
  function OpenSession(driveId: string, folder: string, name: string, net: Call -> Reply): (e: Exchange<string>)
    ensures e.calls == [CreateSession(driveId, ItemPath(folder, name), name)]
    ensures var reply := net(CreateSession(driveId, ItemPath(folder, name), name));
      && (e.result.Ok? <==> !RaisesForStatus(reply.status) && reply.uploadUrl.Some?)
      && (e.result.Ok? ==> e.result.value == reply.uploadUrl.value)
  {
    var call := CreateSession(driveId, ItemPath(folder, name), name);
    var reply := net(call);
    if RaisesForStatus(reply.status) then Exchange(Err(HttpError(reply.status)), [call])
    else if reply.uploadUrl.None? then Exchange(Err(MissingKey("uploadUrl")), [call])
    else Exchange(Ok(reply.uploadUrl.value), [call])
  }

  /** A chunk reply that ends the upload: not 200, 201 or 202, and a status
      `raise_for_status` raises for. */
  predicate ChunkFails(status: int) {
    status != 200 && status != 201 && status != 202 && RaisesForStatus(status)
  }

  /** Every chunk of the plan holds at least one byte. */
  predicate NonEmptyChunks(plan: seq<Chunk>) {
    forall i :: 0 <= i < |plan| ==> plan[i].start < plan[i].end
  }

  /** The chunk PUT for one chunk of a file of `size` bytes. */
  function ChunkRequest(uploadUrl: string, c: Chunk, size: nat): Call
    requires c.start < c.end
  {
    PutChunk(uploadUrl, HeadersOf(c, size))
  }

  /** Whether a chunk request announces chunk `c` of a file of `size`
      bytes: it goes to the upload URL, its Content-Range reads back as the
      chunk's first byte, last byte and the file size, and its
      Content-Length reads back as the chunk's length. */
  predicate Announces(call: Call, uploadUrl: string, c: Chunk, size: nat) {
    && call.PutChunk?
    && call.uploadUrl == uploadUrl
    && c.start < c.end
    && ParseContentRange(call.headers.contentRange) == Some(ByteRange(c.start, c.end - 1, size))
    && AllDigits(call.headers.contentLength)
    && ParseNat(call.headers.contentLength) == c.end - c.start
  }

  /** The headers of a chunk request read back as the chunk it sends. */
  lemma ChunkRequestAnnounces(uploadUrl: string, c: Chunk, size: nat)
    requires c.start < c.end
    ensures Announces(ChunkRequest(uploadUrl, c, size), uploadUrl, c, size)
  {
    ContentRangeRoundTrip(c, size);
    ParseNatToString(c.end - c.start);
  }

  /** The chunk PUTs of a whole plan, in order: request `k` announces
      chunk `k` of the plan. */
  function ChunkRequests(uploadUrl: string, plan: seq<Chunk>, size: nat): (calls: seq<Call>)
    requires NonEmptyChunks(plan)
    ensures |calls| == |plan|
    ensures forall k :: 0 <= k < |plan| ==> calls[k] == ChunkRequest(uploadUrl, plan[k], size)
    ensures forall k :: 0 <= k < |plan| ==> Announces(calls[k], uploadUrl, plan[k], size)
  {
    forall k | 0 <= k < |plan| ensures Announces(ChunkRequest(uploadUrl, plan[k], size), uploadUrl, plan[k], size) {
      ChunkRequestAnnounces(uploadUrl, plan[k], size);
    }
    seq(|plan|, k requires 0 <= k < |plan| => ChunkRequest(uploadUrl, plan[k], size))
  }

  /** No reply to the first `n` requests fails the upload. */
  predicate Accepted(calls: seq<Call>, n: int, net: Call -> Reply)
    requires n <= |calls|
  {
    forall k :: 0 <= k < n ==> !ChunkFails(net(calls[k]).status)
  }

  /** The chunk loop of `_upload_large_file` over its requests: each is
      sent, a failing reply ends the upload, and the reply to the last one is
      the result. Without a request there is no reply to return. The
      requests sent are always a prefix of the ones planned. */
  function SendChunks(requests: seq<Call>, net: Call -> Reply): (e: Exchange<Reply>)
    ensures |e.calls| <= |requests| && e.calls == requests[..|e.calls|]
    ensures |requests| == 0 <==> e == Exchange(Err(NoChunkReply), [])
    decreases |requests|
  {
    if |requests| == 0 then Exchange(Err(NoChunkReply), [])
    else
      var reply := net(requests[0]);
      if ChunkFails(reply.status) then Exchange(Err(HttpError(reply.status)), [requests[0]])
      else if |requests| == 1 then Exchange(Ok(reply), [requests[0]])
      else
        var rest := SendChunks(requests[1..], net);
        Exchange(rest.result, [requests[0]] + rest.calls)
  }

  /** How the chunk loop ends: every reply before the last one was
      accepted, and the last reply decides. The upload succeeds exactly when
      every request was sent and the last reply did not fail it, and its
      result is then that reply; otherwise the failing status is the error. */
  lemma {:induction false} SendChunksOutcome(requests: seq<Call>, net: Call -> Reply)
    requires |requests| > 0
    ensures var e := SendChunks(requests, net);
      && |e.calls| > 0
      && Accepted(e.calls, |e.calls| - 1, net)
      && var last := net(e.calls[|e.calls| - 1]);
      && (e.result.Ok? <==> |e.calls| == |requests| && !ChunkFails(last.status))
      && (e.result.Ok? ==> e.result.value == last)
      && (e.result.Err? ==> ChunkFails(last.status) && e.result.error == HttpError(last.status))
    decreases |requests|
  {
    if !ChunkFails(net(requests[0]).status) && |requests| > 1 {
      SendChunksOutcome(requests[1..], net);
      var rest := SendChunks(requests[1..], net);
      var e := SendChunks(requests, net);
      assert e.calls == [requests[0]] + rest.calls;
      assert forall k :: 1 <= k < |e.calls| ==> e.calls[k] == rest.calls[k - 1];
    }
  }

  /** The chunks of a whole file are never empty. */
  lemma PlanNonEmptyChunks(size: nat)
    ensures NonEmptyChunks(ChunkPlan(size))
  {
    forall i | 0 <= i < |ChunkPlan(size)| ensures ChunkPlan(size)[i].start < ChunkPlan(size)[i].end {
      ChunkInFile(size, i);
    }
  }

  /** `_upload_large_file`: open a session, then send the chunk plan to its
      upload URL. */
  function UploadLarge(driveId: string, folder: string, name: string, size: nat, net: Call -> Reply): (e: Exchange<Reply>)
    ensures |e.calls| > 0 && e.calls[0] == CreateSession(driveId, ItemPath(folder, name), name)
    ensures var session := OpenSession(driveId, folder, name, net);
      && (session.result.Err? ==> e == Exchange(Err(session.result.error), session.calls))
      && (session.result.Ok? ==>
            && NonEmptyChunks(ChunkPlan(size))
            && var chunks := SendChunks(ChunkRequests(session.result.value, ChunkPlan(size), size), net);
            && e.calls[1..] == chunks.calls
            && e.result == chunks.result)
  {
    var session := OpenSession(driveId, folder, name, net);
    if session.result.Err? then Exchange(Err(session.result.error), session.calls)
    else
      PlanNonEmptyChunks(size);
      var chunks := SendChunks(ChunkRequests(session.result.value, ChunkPlan(size), size), net);
      Exchange(chunks.result, session.calls + chunks.calls)
  }

  /** A resumable upload that succeeds has sent every chunk of the plan, in
      order, to the session's upload URL. */
  lemma LargeUploadSendsWholePlan(driveId: string, folder: string, name: string, size: nat, net: Call -> Reply)
    requires UploadLarge(driveId, folder, name, size, net).result.Ok?
    ensures var session := OpenSession(driveId, folder, name, net);
      && session.result.Ok?
      && NonEmptyChunks(ChunkPlan(size))
      && UploadLarge(driveId, folder, name, size, net).calls[1..] == ChunkRequests(session.result.value, ChunkPlan(size), size)
  {
    var session := OpenSession(driveId, folder, name, net);
    PlanNonEmptyChunks(size);
    var requests := ChunkRequests(session.result.value, ChunkPlan(size), size);
    if |requests| > 0 {
      SendChunksOutcome(requests, net);
    }
  }

  /** Whether a request is a chunk PUT whose Content-Range holds byte `b`. */
  predicate SendsByte(call: Call, b: nat) {
    && call.PutChunk?
    && var r := ParseContentRange(call.headers.contentRange);
    && r.Some? && r.value.first <= b <= r.value.last
  }

  /** Whether a request is a chunk PUT whose Content-Range names the file's
      size and lies within the file. */
  predicate WithinFile(call: Call, size: nat) {
    && call.PutChunk?
    && var r := ParseContentRange(call.headers.contentRange);
    && r.Some? && r.value.first <= r.value.last < size && r.value.complete == size
  }

  /** Whether some request among `sent` carries byte `b`. */
  predicate SomeSends(sent: seq<Call>, b: nat) {
    exists k :: 0 <= k < |sent| && SendsByte(sent[k], b)
  }

  /** The chunk requests `sent` deliver a file of `size` bytes: each lies
      within the file, and every byte is carried by exactly one of them. */
  predicate CoversExactly(sent: seq<Call>, size: nat) {
    && (forall k :: 0 <= k < |sent| ==> WithinFile(sent[k], size))
    && (forall b :: 0 <= b < size ==> SomeSends(sent, b))
    && (forall b, k, j ::
          (0 <= b < size && 0 <= k < |sent| && 0 <= j < |sent|
           && SendsByte(sent[k], b) && SendsByte(sent[j], b)) ==> k == j)
  }

  /** The requests of the whole chunk plan each lie within the file. */
  lemma RequestsWithinFile(uploadUrl: string, size: nat)
    requires NonEmptyChunks(ChunkPlan(size))
    ensures var sent := ChunkRequests(uploadUrl, ChunkPlan(size), size);
      forall k :: 0 <= k < |sent| ==> WithinFile(sent[k], size)
  {
    var sent := ChunkRequests(uploadUrl, ChunkPlan(size), size);
    forall k | 0 <= k < |sent| ensures WithinFile(sent[k], size) {
      ChunkInFile(size, k);
    }
  }

  /** Every byte of the file is carried by some request of the plan. */
  lemma RequestsReachEveryByte(uploadUrl: string, size: nat, b: nat)
    requires NonEmptyChunks(ChunkPlan(size)) && b < size
    ensures SomeSends(ChunkRequests(uploadUrl, ChunkPlan(size), size), b)
  {
    var plan := ChunkPlan(size);
    var sent := ChunkRequests(uploadUrl, plan, size);
    ChunksFromWellFormed(0, size);
    ExactCover(plan, size, b);
    var i :| 0 <= i < |plan| && plan[i].start <= b < plan[i].end;
    assert SendsByte(sent[i], b);
  }

  /** No byte is carried by two requests of the plan. */
  lemma RequestsDisjoint(uploadUrl: string, size: nat, b: nat, k: nat, j: nat)
    requires NonEmptyChunks(ChunkPlan(size)) && b < size
    requires var sent := ChunkRequests(uploadUrl, ChunkPlan(size), size);
      k < |sent| && j < |sent| && SendsByte(sent[k], b) && SendsByte(sent[j], b)
    ensures k == j
  {
    var plan := ChunkPlan(size);
    ChunksFromWellFormed(0, size);
    ExactCover(plan, size, b);
    assert plan[k].start <= b < plan[k].end;
    assert plan[j].start <= b < plan[j].end;
  }

  /** The chunk requests of the whole plan deliver the file exactly. */
  lemma RequestsCoverFile(uploadUrl: string, size: nat)
    requires NonEmptyChunks(ChunkPlan(size))
    ensures CoversExactly(ChunkRequests(uploadUrl, ChunkPlan(size), size), size)
  {
    var sent := ChunkRequests(uploadUrl, ChunkPlan(size), size);
    RequestsWithinFile(uploadUrl, size);
    forall b | 0 <= b < size ensures SomeSends(sent, b) {
      RequestsReachEveryByte(uploadUrl, size, b);
    }
    forall b, k, j | 0 <= b < size && 0 <= k < |sent| && 0 <= j < |sent|
                     && SendsByte(sent[k], b) && SendsByte(sent[j], b)
      ensures k == j
    {
      RequestsDisjoint(uploadUrl, size, b, k, j);
    }
  }

  /** A successful resumable upload delivered the file exactly: after the
      session request, every byte of the file went out in exactly one chunk
      request, and no chunk request reaches past the file's end. */
  lemma LargeUploadCoversFile(driveId: string, folder: string, name: string, size: nat, net: Call -> Reply)
    ensures var e := UploadLarge(driveId, folder, name, size, net);
      e.result.Ok? ==> |e.calls| > 0 && CoversExactly(e.calls[1..], size)
  {
    if UploadLarge(driveId, folder, name, size, net).result.Ok? {
      LargeUploadSendsWholePlan(driveId, folder, name, size, net);
      RequestsCoverFile(OpenSession(driveId, folder, name, net).result.value, size);
    }
  }

  /** None of the requests is a metadata update. */
  predicate NoPatch(calls: seq<Call>) {
    forall i :: 0 <= i < |calls| ==> !calls[i].PatchFields?
  }

  /** Every request carries file content: a simple PUT, a session request
      or a chunk PUT. */
  predicate ContentOnly(calls: seq<Call>) {
    forall i :: 0 <= i < |calls| ==> calls[i].PutContent? || calls[i].CreateSession? || calls[i].PutChunk?
  }

  /** Some request lists the site's drives. */
  predicate ListsDrives(calls: seq<Call>) {
    exists i :: 0 <= i < |calls| && calls[i].ListDrives?
  }

  /** The metadata update of `upload_file` after an upload attempt: sent
      only when the upload returned, the metadata is non-empty and the reply
      has a non-empty `id`; its failure fails the upload, its success keeps
      the upload's own reply as the result. */
  function PatchAfter(driveId: string, upload: Exchange<Reply>, metadata: seq<(string, string)>, net: Call -> Reply): (e: Exchange<Reply>)
    ensures upload.result.Err? ==> e == upload
    ensures upload.result.Ok? ==>
      var patch := |metadata| > 0 && Truthy(upload.result.value.id);
      && (!patch ==> e == upload)
      && (patch ==>
            var call := PatchFields(driveId, upload.result.value.id.value, metadata);
            && e.calls == upload.calls + [call]
            && (e.result.Ok? <==> !RaisesForStatus(net(call).status))
            && (e.result.Ok? ==> e.result == upload.result))
  {
    if upload.result.Err? then upload
    else if |metadata| > 0 && Truthy(upload.result.value.id) then
      var call := PatchFields(driveId, upload.result.value.id.value, metadata);
      var reply := net(call);
      Exchange(if RaisesForStatus(reply.status) then Err(HttpError(reply.status)) else upload.result,
               upload.calls + [call])
    else upload
  }

  /** The upload itself, simple or resumable by the file's size. */
  function UploadBySize(driveId: string, folder: string, name: string, size: nat, net: Call -> Reply): (e: Exchange<Reply>)
    ensures NoPatch(e.calls) && ContentOnly(e.calls)
    ensures |e.calls| > 0
    ensures size < SimpleUploadLimit ==> e == UploadSmall(driveId, folder, name, net)
    ensures size >= SimpleUploadLimit ==>
      e == UploadLarge(driveId, folder, name, size, net) && e.calls[0] == CreateSession(driveId, ItemPath(folder, name), name)
  {
    if ChooseStrategy(size) == SimpleUpload then UploadSmall(driveId, folder, name, net)
    else
      LargeUploadNoPatch(driveId, folder, name, size, net);
      UploadLarge(driveId, folder, name, size, net)
  }

  /** The resumable upload sends no metadata update. */
  lemma LargeUploadNoPatch(driveId: string, folder: string, name: string, size: nat, net: Call -> Reply)
    ensures NoPatch(UploadLarge(driveId, folder, name, size, net).calls)
    ensures ContentOnly(UploadLarge(driveId, folder, name, size, net).calls)
  {
    LargeUploadContentOnly(driveId, folder, name, size, net);
  }

  /** The resumable upload sends only the session request and chunk PUTs. */
  lemma LargeUploadContentOnly(driveId: string, folder: string, name: string, size: nat, net: Call -> Reply)
    ensures ContentOnly(UploadLarge(driveId, folder, name, size, net).calls)
  {
    var e := UploadLarge(driveId, folder, name, size, net);
    var session := OpenSession(driveId, folder, name, net);
    if session.result.Ok? {
      PlanNonEmptyChunks(size);
      var requests := ChunkRequests(session.result.value, ChunkPlan(size), size);
      var chunks := SendChunks(requests, net);
      assert forall k :: 0 <= k < |chunks.calls| ==> chunks.calls[k] == requests[k];
      assert forall k :: 0 <= k < |chunks.calls| ==> chunks.calls[k].PutChunk?;
      assert forall k :: 1 <= k < |e.calls| ==> e.calls[k] == chunks.calls[k - 1];
    }
  }

  /** The requests `calls` begin with a delivery of the file of `size`
      bytes to `name` in `folder`: a small file as one PUT to the item
      path, a large one as a session request followed by chunk requests that
      carry every byte exactly once. */
  predicate Delivers(calls: seq<Call>, driveId: string, folder: string, name: string, size: nat) {
    && |calls| > 0
    && (size < SimpleUploadLimit ==> calls[0] == PutContent(driveId, ItemPath(folder, name)))
    && (size >= SimpleUploadLimit ==>
          && calls[0] == CreateSession(driveId, ItemPath(folder, name), name)
          && 1 + |ChunkPlan(size)| <= |calls|
          && CoversExactly(calls[1..1 + |ChunkPlan(size)|], size))
  }

  /** A successful upload by size delivered the file. */
  lemma UploadBySizeDelivers(driveId: string, folder: string, name: string, size: nat, net: Call -> Reply)
    ensures var u := UploadBySize(driveId, folder, name, size, net);
      u.result.Ok? ==> Delivers(u.calls, driveId, folder, name, size)
  {
    var u := UploadBySize(driveId, folder, name, size, net);
    if u.result.Ok? && size >= SimpleUploadLimit {
      LargeUploadSendsWholePlan(driveId, folder, name, size, net);
      LargeUploadCoversFile(driveId, folder, name, size, net);
      assert u.calls[1..1 + |ChunkPlan(size)|] == u.calls[1..];
    }
  }

  /** Requests that begin with a delivery still do when more follow. */
  lemma DeliversPrefix(calls: seq<Call>, more: seq<Call>, driveId: string, folder: string, name: string, size: nat)
    requires Delivers(calls, driveId, folder, name, size)
    ensures Delivers(calls + more, driveId, folder, name, size)
  {
    var all := calls + more;
    assert all[0] == calls[0];
    if size >= SimpleUploadLimit {
      assert all[1..1 + |ChunkPlan(size)|] == calls[1..1 + |ChunkPlan(size)|];
    }
  }

  /** The start of `upload_file`: resolve the site, then list its drives
      only when no drive id was given. A site error ends the call before any
      drive is looked up. */
  function ResolveTarget(siteId: Option<string>, siteUrl: Option<string>, driveId: Option<string>, library: string,
                         net: Call -> Reply): (e: Exchange<string>)
    ensures var site := Site.ResolveSiteId(siteId, siteUrl, net);
      && |site.calls| <= |e.calls| && e.calls[..|site.calls|] == site.calls
      && (site.result.Err? ==> e == Exchange(Err(site.result.error), site.calls))
      && (site.result.Ok? && Truthy(driveId) ==> e == Exchange(Ok(driveId.value), site.calls))
      && (site.result.Ok? && !Truthy(driveId) ==>
            && e.calls == site.calls + [ListDrives(site.result.value)]
            && e.result == Site.ResolveDrive(site.result.value, library, net).result)
      && (ListsDrives(e.calls) <==> site.result.Ok? && !Truthy(driveId))
    ensures NoPatch(e.calls)
  {
    var site := Site.ResolveSiteId(siteId, siteUrl, net);
    if site.result.Err? then Exchange(Err(site.result.error), site.calls)
    else if Truthy(driveId) then Exchange(Ok(driveId.value), site.calls)
    else
      var drive := Site.ResolveDrive(site.result.value, library, net);
      var calls := site.calls + drive.calls;
      assert calls[|calls| - 1].ListDrives?;
      Exchange(drive.result, calls)
  }

  /** The rest of `upload_file` once the drive is known: the simple or the
      resumable upload by size, then the metadata update. The upload's
      requests come first, and the call succeeds only when the upload did,
      with the upload's reply. A metadata update is sent only for non-empty
      metadata, and on success exactly when the upload's reply carries a
      non-empty id; it is then the last request, aimed at that id. No
      request lists drives. */
  function UploadTo(driveId: string, folder: string, name: string, size: nat, metadata: seq<(string, string)>,
                    net: Call -> Reply): (e: Exchange<Reply>)
    ensures var upload := UploadBySize(driveId, folder, name, size, net);
      && |upload.calls| <= |e.calls| && e.calls[..|upload.calls|] == upload.calls
      && (upload.result.Err? ==> e.result == upload.result)
      && (e.result.Ok? ==> e.result == upload.result)
    ensures !ListsDrives(e.calls)
    ensures |metadata| == 0 ==> NoPatch(e.calls)
    ensures e.result.Ok? ==> (!NoPatch(e.calls) <==> |metadata| > 0 && Truthy(e.result.value.id))
    ensures e.result.Ok? && !NoPatch(e.calls) ==>
      e.calls[|e.calls| - 1] == PatchFields(driveId, e.result.value.id.value, metadata)
  {
    var upload := UploadBySize(driveId, folder, name, size, net);
    UploadFileCalls([], driveId, upload, metadata, net);
    assert [] + PatchAfter(driveId, upload, metadata, net).calls == PatchAfter(driveId, upload, metadata, net).calls;
    PatchAfter(driveId, upload, metadata, net)
  }

  /** `upload_file`: find the site, find the drive unless one was given,
      then upload and update the metadata. The resolution requests come
      first and a resolution error ends the call; otherwise the upload's
      requests follow them and its result is the call's. The drives are
      listed exactly when no drive id was given and the site was found, and
      a metadata update, when sent, is the last request. */
  function UploadFile(siteId: Option<string>, siteUrl: Option<string>, driveId: Option<string>, library: string,
                      folder: string, name: string, size: nat, metadata: seq<(string, string)>,
                      net: Call -> Reply): (e: Exchange<Reply>)
    ensures |metadata| == 0 ==> NoPatch(e.calls)
    ensures e.result.Ok? ==> (!NoPatch(e.calls) <==> |metadata| > 0 && Truthy(e.result.value.id))
    ensures e.result.Ok? && !NoPatch(e.calls) ==>
      e.calls[|e.calls| - 1].PatchFields? && e.calls[|e.calls| - 1].itemId == e.result.value.id.value
      && e.calls[|e.calls| - 1].fields == metadata
    ensures var target := ResolveTarget(siteId, siteUrl, driveId, library, net);
      && |target.calls| <= |e.calls| && e.calls[..|target.calls|] == target.calls
      && (target.result.Err? ==> e == Exchange(Err(target.result.error), target.calls))
      && (target.result.Ok? ==>
            var rest := UploadTo(target.result.value, folder, name, size, metadata, net);
            e == Exchange(rest.result, target.calls + rest.calls))
    ensures ListsDrives(e.calls) <==> Site.ResolveSiteId(siteId, siteUrl, net).result.Ok? && !Truthy(driveId)
  {
    var target := ResolveTarget(siteId, siteUrl, driveId, library, net);
    if target.result.Err? then Exchange(Err(target.result.error), target.calls)
    else
      var rest := UploadTo(target.result.value, folder, name, size, metadata, net);
      AfterResolution(target.calls, rest.calls);
      Exchange(rest.result, target.calls + rest.calls)
  }

  /** Resolution requests in front of the upload's change neither whether
      a metadata update is sent nor which request is last, and the drives
      are listed only among them. */
  lemma AfterResolution(before: seq<Call>, calls: seq<Call>)
    requires NoPatch(before) && !ListsDrives(calls)
    ensures NoPatch(before + calls) <==> NoPatch(calls)
    ensures |calls| > 0 ==> (before + calls)[|before + calls| - 1] == calls[|calls| - 1]
    ensures ListsDrives(before + calls) <==> ListsDrives(before)
    ensures (before + calls)[..|before|] == before
  {
    var all := before + calls;
    assert forall k :: |before| <= k < |all| ==> all[k] == calls[k - |before|];
    if !NoPatch(calls) {
      var i :| 0 <= i < |calls| && calls[i].PatchFields?;
      assert all[|before| + i].PatchFields?;
    }
    if ListsDrives(all) {
      var i :| 0 <= i < |all| && all[i].ListDrives?;
      assert i < |before|;
      assert before[i].ListDrives?;
    }
    if ListsDrives(before) {
      var i :| 0 <= i < |before| && before[i].ListDrives?;
      assert all[i].ListDrives?;
    }
  }

  /** The requests of `upload_file` after resolution: the upload's, then
      at most the metadata update, none of which lists drives; the result is
      the upload's unless the update fails. */
  lemma UploadFileCalls(before: seq<Call>, driveId: string, upload: Exchange<Reply>, metadata: seq<(string, string)>,
                        net: Call -> Reply)
    requires NoPatch(before) && ContentOnly(upload.calls)
    ensures var done := PatchAfter(driveId, upload, metadata, net);
      var calls := before + done.calls;
      && (|metadata| == 0 ==> NoPatch(calls))
      && (done.result.Ok? ==> (!NoPatch(calls) <==> |metadata| > 0 && Truthy(done.result.value.id)))
      && (done.result.Ok? && !NoPatch(calls) ==>
            calls[|calls| - 1] == PatchFields(driveId, done.result.value.id.value, metadata))
      && (upload.result.Err? ==> done.result == upload.result)
      && (done.result.Ok? ==> done.result == upload.result)
    ensures var calls := before + PatchAfter(driveId, upload, metadata, net).calls;
      && |before| + |upload.calls| <= |calls|
      && calls[..|before|] == before
      && calls[|before|..|before| + |upload.calls|] == upload.calls
      && (ListsDrives(calls) <==> ListsDrives(before))
  {
    var done := PatchAfter(driveId, upload, metadata, net);
    var calls := before + done.calls;
    assert NoPatch(upload.calls);
    PatchIsLast(before, driveId, upload, metadata, net);
    assert done.calls[..|upload.calls|] == upload.calls;
    assert forall k :: |before| <= k < |calls| ==> calls[k] == done.calls[k - |before|];
    assert forall k :: 0 <= k < |done.calls| ==> !done.calls[k].ListDrives?;
    if ListsDrives(calls) {
      var i :| 0 <= i < |calls| && calls[i].ListDrives?;
      assert before[i].ListDrives?;
    }
    if ListsDrives(before) {
      var i :| 0 <= i < |before| && before[i].ListDrives?;
      assert calls[i].ListDrives?;
    }
  }

  /** A successful `upload_file` delivered the file right after resolving
      its target: a small file as one PUT to the item path, a large one as a
      session request followed by chunk requests that carry every byte of
      the file exactly once. */
  lemma UploadFileDelivers(siteId: Option<string>, siteUrl: Option<string>, driveId: Option<string>, library: string,
                           folder: string, name: string, size: nat, metadata: seq<(string, string)>,
                           net: Call -> Reply)
    ensures var e := UploadFile(siteId, siteUrl, driveId, library, folder, name, size, metadata, net);
      var target := ResolveTarget(siteId, siteUrl, driveId, library, net);
      e.result.Ok? ==>
        && target.result.Ok?
        && |target.calls| <= |e.calls|
        && Delivers(e.calls[|target.calls|..], target.result.value, folder, name, size)
  {
    var e := UploadFile(siteId, siteUrl, driveId, library, folder, name, size, metadata, net);
    var target := ResolveTarget(siteId, siteUrl, driveId, library, net);
    if e.result.Ok? && target.result.Ok? {
      var n := |target.calls|;
      var d := target.result.value;
      var upload := UploadBySize(d, folder, name, size, net);
      var rest := UploadTo(d, folder, name, size, metadata, net);
      UploadBySizeDelivers(d, folder, name, size, net);
      assert e.calls[n..] == rest.calls;
      assert rest.calls == upload.calls + rest.calls[|upload.calls|..];
      DeliversPrefix(upload.calls, rest.calls[|upload.calls|..], d, folder, name, size);
    }
  }

  /** Requests before an upload that hold no metadata update leave the
      update, when there is one, as the last request. */
  lemma PatchIsLast(before: seq<Call>, driveId: string, upload: Exchange<Reply>, metadata: seq<(string, string)>,
                    net: Call -> Reply)
    requires NoPatch(before) && NoPatch(upload.calls)
    ensures var done := PatchAfter(driveId, upload, metadata, net);
      var calls := before + done.calls;
      && (|metadata| == 0 ==> NoPatch(calls))
      && (done.result.Ok? ==> (!NoPatch(calls) <==> |metadata| > 0 && Truthy(done.result.value.id)))
      && (done.result.Ok? && !NoPatch(calls) ==>
            calls[|calls| - 1] == PatchFields(driveId, done.result.value.id.value, metadata))
  {
    var done := PatchAfter(driveId, upload, metadata, net);
    var calls := before + done.calls;
    assert NoPatch(before + upload.calls);
    if done.calls != upload.calls {
      assert calls[|calls| - 1] == done.calls[|done.calls| - 1];
    }
  }
}
