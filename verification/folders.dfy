/** `create_folder` of `src/sharepoint_client.py`: the folder path, stripped
    of outer slashes, is split into levels, and one "create child" request
    goes out per level, under the root for the first level and under the
    levels before it for the others. A 409 reply means the level is there
    already; any other failing status ends the walk. */
module Folders {
  import opened Base
  import opened Strings
  import opened Graph
  import Naming
  import Decimal

  /** The levels `create_folder` walks: `folder_path.strip("/").split("/")`. */
  function FolderParts(folderPath: string): seq<string> {
    Split(Strip(folderPath, {'/'}), '/')
  }

  /** The `current_path` of the loop before level `k`: empty at first, then
      each level appended, with a "/" only once `current_path` is non-empty. */
  function PathBefore(parts: seq<string>, k: nat): string
    requires k <= |parts|
  {
    if k == 0 then ""
    else
      var current := PathBefore(parts, k - 1);
      if current != "" then current + "/" + parts[k - 1] else parts[k - 1]
  }

  /** The request for level `k`: its parent is the root while `current_path`
      is empty, and `current_path` after that. */
  function FolderRequest(driveId: string, parts: seq<string>, k: nat): Call
    requires k < |parts|
  {
    var current := PathBefore(parts, k);
    CreateChild(driveId, if current != "" then Some(current) else None, parts[k])
  }

  /** A reply that stops the walk: neither 409 nor 200/201, and a status
      `raise_for_status` raises for. */
  predicate Aborts(status: int) {
    status != 409 && status != 200 && status != 201 && RaisesForStatus(status)
  }

  /** The value `create_folder` returns when it gets through every level. */
  datatype FolderRecord = FolderRecord(status: string, path: string)

  /** When there is more than one level, the first is not empty: the
      stripped path does not start with "/". */
  lemma FirstLevelNonEmpty(folderPath: string)
    requires |FolderParts(folderPath)| > 1
    ensures FolderParts(folderPath)[0] != ""
  {
    var s := Strip(folderPath, {'/'});
    var parts := FolderParts(folderPath);
    assert Join(parts, '/') == parts[0] + "/" + Join(parts[1..], '/');
  }

  /** Once the first level is not empty, `current_path` before level `k` is
      the first `k` levels joined by "/", and is never empty. */
  lemma {:induction false} PathBeforeIsJoin(parts: seq<string>, k: nat)
    requires 1 <= k <= |parts| && parts[0] != ""
    ensures PathBefore(parts, k) == Join(parts[..k], '/')
    ensures PathBefore(parts, k) != ""
  {
    if k == 1 {
      assert parts[..1] == [parts[0]];
    } else {
      PathBeforeIsJoin(parts, k - 1);
      assert parts[..k] == parts[..k - 1] + [parts[k - 1]];
      JoinSnoc(parts[..k - 1], parts[k - 1], '/');
    }
  }

  /** Level 0 is created under the root, and level `k > 0` under the first
      `k` levels joined by "/". */
  lemma FolderRequestParents(driveId: string, folderPath: string, k: nat)
    requires k < |FolderParts(folderPath)|
    ensures var parts := FolderParts(folderPath);
      FolderRequest(driveId, parts, k) ==
        CreateChild(driveId, if k == 0 then None else Some(Join(parts[..k], '/')), parts[k])
  {
    var parts := FolderParts(folderPath);
    if k > 0 {
      FirstLevelNonEmpty(folderPath);
      PathBeforeIsJoin(parts, k);
    }
  }

  /** The loop of `create_folder`, request by request, over the levels
      `parts`. It sends the level requests in order and stops at the first
      reply that aborts; otherwise it reports `folderPath` as created. */
  method CreateLevels(driveId: string, parts: seq<string>, folderPath: string, net: Call -> Reply)
    returns (e: Exchange<FolderRecord>)
    requires |parts| > 0
    ensures 0 < |e.calls| <= |parts|
    ensures forall k :: 0 <= k < |e.calls| ==> e.calls[k] == FolderRequest(driveId, parts, k)
    ensures forall k :: 0 <= k < |e.calls| - 1 ==> !Aborts(net(e.calls[k]).status)
    ensures e.result.Ok? <==>
      |e.calls| == |parts| && forall k :: 0 <= k < |e.calls| ==> !Aborts(net(e.calls[k]).status)
    ensures e.result.Ok? ==> e.result.value == FolderRecord("created", folderPath)
    ensures e.result.Err? ==>
      var status := net(e.calls[|e.calls| - 1]).status;
      Aborts(status) && e.result.error == HttpError(status)
  {
    var current := "";
    var calls: seq<Call> := [];
    var i := 0;
    while i < |parts|
      invariant 0 <= i <= |parts|
      invariant current == PathBefore(parts, i)
      invariant |calls| == i
      invariant forall k :: 0 <= k < i ==> calls[k] == FolderRequest(driveId, parts, k)
      invariant forall k :: 0 <= k < i ==> !Aborts(net(calls[k]).status)
    {
      var call := CreateChild(driveId, if current != "" then Some(current) else None, parts[i]);
      var reply := net(call);
      calls := calls + [call];
      if reply.status == 409 {
        // the level exists already
      } else if reply.status != 200 && reply.status != 201 {
        if RaisesForStatus(reply.status) {
          assert net(calls[i]).status == reply.status;
          return Exchange(Err(HttpError(reply.status)), calls);
        }
      }
      current := if current != "" then current + "/" + parts[i] else parts[i];
      i := i + 1;
    }
    return Exchange(Ok(FolderRecord("created", folderPath)), calls);
  }

  /** `create_folder` once the drive is known: the walk over the levels of
      the stripped path, sending one request per level in order, stopping
      at the first reply that aborts and reporting that reply's status. */
  method CreateFolder(driveId: string, folderPath: string, net: Call -> Reply) returns (e: Exchange<FolderRecord>)
    ensures 0 < |e.calls| <= |FolderParts(folderPath)|
    ensures forall k :: 0 <= k < |e.calls| ==> e.calls[k] == FolderRequest(driveId, FolderParts(folderPath), k)
    ensures e.result.Ok? <==>
      |e.calls| == |FolderParts(folderPath)| && forall k :: 0 <= k < |e.calls| ==> !Aborts(net(e.calls[k]).status)
    ensures forall k :: 0 <= k < |e.calls| - 1 ==> !Aborts(net(e.calls[k]).status)
    ensures e.result.Ok? ==> e.result.value == FolderRecord("created", folderPath)
    ensures e.result.Err? ==>
      var status := net(e.calls[|e.calls| - 1]).status;
      Aborts(status) && e.result.error == HttpError(status)
  {
    e := CreateLevels(driveId, FolderParts(folderPath), folderPath, net);
  }

  /** A date folder is created as three levels: the year, the month
      directory and the date. */
  lemma DateFolderLevels(date: string)
    requires Naming.IsIsoDate(date)
    ensures FolderParts(Naming.DateFolderPath(date)) ==
      [date[..4], date[5..7] + " - " + Naming.MonthName(date[5..7]), date]
  {
    var path := Naming.DateFolderPath(date);
    Naming.DateFolderPathLevels(date);
    assert Decimal.IsDigit(date[0]) && Decimal.IsDigit(date[9]);
    assert path[0] == date[0];
    assert path[|path| - 1] == date[9];
    StripFixpoint(path, {'/'});
  }
}
