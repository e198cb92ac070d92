/** How `src/sharepoint_client.py` finds its site and document library:
    `_get_site_id` parses the site URL into a hostname and a site path and
    asks Graph for the site's id unless an id was given, and `_get_drive_id`
    picks the first drive of the site whose name is the library's. */
module Site {
  import opened Base
  import opened Strings
  import opened Graph

  /** The two parts of a site URL that the site lookup sends to Graph. */
  datatype SiteAddress = SiteAddress(hostname: string, sitePath: string)

  /** Every "https://" is removed, the rest is split on "/", the first field
      is the hostname and the others, joined again, form the site path with
      a leading "/" (or "" when there are none). The two parts glue back to
      the URL without its scheme. */
  function ParseSiteUrl(url: string): (a: SiteAddress)
    ensures '/' !in a.hostname
    ensures a.sitePath == "" || a.sitePath[0] == '/'
    ensures a.hostname + a.sitePath == ReplaceAll(url, "https://", "")
  {
    var parts := Split(ReplaceAll(url, "https://", ""), '/');
    var path := if |parts| > 1 then "/" + Join(parts[1..], '/') else "";
    assert |parts| > 1 ==> Join(parts, '/') == parts[0] + "/" + Join(parts[1..], '/');
    SiteAddress(parts[0], path)
  }

  /** For a URL made of the scheme and a rest without ':', the hostname is
      the rest up to its first "/", and the site path is everything after
      the hostname. */
  lemma SiteUrlRoundTrip(rest: string)
    requires ':' !in rest
    ensures var a := ParseSiteUrl("https://" + rest);
      && a.hostname + a.sitePath == rest
      && a.hostname == rest[..|a.hostname|]
      && (|a.hostname| < |rest| ==> rest[|a.hostname|] == '/')
  {
    var url := "https://" + rest;
    assert "https://" <= url;
    assert url[|"https://"|..] == rest;
    ReplaceAbsent(rest, "https://", "", ':');
    assert ReplaceAll(url, "https://", "") == rest;
    SplitHead(rest, '/');
  }

  /** The message `_get_site_id` raises when it has neither an id nor a URL. */
  const NoSiteMessage: string := "Either site_id or site_url must be provided"

  /** `_get_site_id`: a non-empty id is used as it is, without a request; with
      neither id nor URL it fails; otherwise it issues one site request and
      takes the `id` of a successful reply. */
  function ResolveSiteId(siteId: Option<string>, siteUrl: Option<string>, net: Call -> Reply): (e: Exchange<string>)
    ensures Truthy(siteId) ==> e == Exchange(Ok(siteId.value), [])
    ensures !Truthy(siteId) && !Truthy(siteUrl) ==> e == Exchange(Err(ValueError(NoSiteMessage)), [])
    ensures !Truthy(siteId) && Truthy(siteUrl) ==>
      var a := ParseSiteUrl(siteUrl.value);
      var reply := net(GetSite(a.hostname, a.sitePath));
      && e.calls == [GetSite(a.hostname, a.sitePath)]
      && (e.result.Ok? <==> !RaisesForStatus(reply.status) && reply.id.Some?)
      && (e.result.Ok? ==> e.result.value == reply.id.value)
      && (RaisesForStatus(reply.status) ==> e.result == Err(HttpError(reply.status)))
  {
    if Truthy(siteId) then Exchange(Ok(siteId.value), [])
    else if !Truthy(siteUrl) then Exchange(Err(ValueError(NoSiteMessage)), [])
    else
      var a := ParseSiteUrl(siteUrl.value);
      var call := GetSite(a.hostname, a.sitePath);
      var reply := net(call);
      if RaisesForStatus(reply.status) then Exchange(Err(HttpError(reply.status)), [call])
      else if reply.id.None? then Exchange(Err(MissingKey("id")), [call])
      else Exchange(Ok(reply.id.value), [call])
  }

  /** The client keeps the id it found: looking the site up again with that
      id returns it at once and sends nothing. */
  lemma SiteIdCached(siteId: Option<string>, siteUrl: Option<string>, net: Call -> Reply)
    requires ResolveSiteId(siteId, siteUrl, net).result.Ok?
    requires ResolveSiteId(siteId, siteUrl, net).result.value != ""
    ensures var id := ResolveSiteId(siteId, siteUrl, net).result.value;
      ResolveSiteId(Some(id), siteUrl, net) == Exchange(Ok(id), [])
  {
  }

  /** Whether some drive of the list carries the library's name. */
  predicate HasDrive(drives: seq<Drive>, library: string) {
    exists i :: 0 <= i < |drives| && drives[i].name == library
  }

  /** Drive `i` is the first one carrying the library's name. */
  predicate FirstMatchAt(drives: seq<Drive>, library: string, i: int) {
    && 0 <= i < |drives|
    && drives[i].name == library
    && forall j :: 0 <= j < i ==> drives[j].name != library
  }

  /** The error of a failed drive lookup. */
  function DriveNotFound(library: string): GraphError {
    ValueError("Drive '" + library + "' not found")
  }

  /** The loop of `_get_drive_id`: the id of the first drive whose name is
      the library's, or the "not found" error. */
  function FindDrive(drives: seq<Drive>, library: string): (r: Result<string, GraphError>)
    ensures r.Ok? <==> HasDrive(drives, library)
    ensures r.Ok? ==> exists i :: FirstMatchAt(drives, library, i) && r.value == drives[i].id
    ensures r.Err? ==> r.error == DriveNotFound(library)
  {
    if |drives| == 0 then Err(DriveNotFound(library))
    else if drives[0].name == library then Ok(drives[0].id)
    else
      var r := FindDrive(drives[1..], library);
      assert HasDrive(drives, library) ==> HasDrive(drives[1..], library) by {
        if HasDrive(drives, library) {
          var i :| 0 <= i < |drives| && drives[i].name == library;
          assert drives[1..][i - 1] == drives[i];
        }
      }
      FirstMatchShift(drives, library, r);
      r
  }

  /** The first match in the tail, when the head does not match, is the
      first match of the whole list. */
  lemma FirstMatchShift(drives: seq<Drive>, library: string, r: Result<string, GraphError>)
    requires |drives| > 0 && drives[0].name != library
    requires r.Ok? ==> exists i :: FirstMatchAt(drives[1..], library, i) && r.value == drives[1..][i].id
    ensures r.Ok? ==> exists i :: FirstMatchAt(drives, library, i) && r.value == drives[i].id
  {
    if r.Ok? {
      var i :| FirstMatchAt(drives[1..], library, i) && r.value == drives[1..][i].id;
      assert drives[i + 1] == drives[1..][i];
      assert forall j :: 1 <= j < i + 1 ==> drives[j] == drives[1..][j - 1];
      assert FirstMatchAt(drives, library, i + 1);
    }
  }

  /** Drives listed first shadow the ones after them: a list that already
      holds the library decides the lookup, and one that does not is
      skipped. */
  lemma {:induction false} FindDriveAppend(xs: seq<Drive>, ys: seq<Drive>, library: string)
    ensures HasDrive(xs, library) ==> FindDrive(xs + ys, library) == FindDrive(xs, library)
    ensures !HasDrive(xs, library) ==> FindDrive(xs + ys, library) == FindDrive(ys, library)
    decreases |xs|
  {
    if |xs| > 0 {
      assert (xs + ys)[0] == xs[0];
      assert (xs + ys)[1..] == xs[1..] + ys;
      if xs[0].name != library {
        FindDriveAppend(xs[1..], ys, library);
        assert HasDrive(xs, library) ==> HasDrive(xs[1..], library) by {
          if HasDrive(xs, library) {
            var i :| 0 <= i < |xs| && xs[i].name == library;
            assert xs[1..][i - 1] == xs[i];
          }
        }
        assert HasDrive(xs[1..], library) ==> HasDrive(xs, library) by {
          if HasDrive(xs[1..], library) {
            var i :| 0 <= i < |xs[1..]| && xs[1..][i].name == library;
            assert xs[i + 1] == xs[1..][i];
          }
        }
      }
    } else {
      assert xs + ys == ys;
    }
  }

  /** `_get_drive_id`: one request for the site's drives, then the lookup. */
  function ResolveDrive(siteId: string, library: string, net: Call -> Reply): (e: Exchange<string>)
    ensures e.calls == [ListDrives(siteId)]
    ensures var reply := net(ListDrives(siteId));
      && (e.result.Ok? <==> !RaisesForStatus(reply.status) && reply.drives.Some? && HasDrive(reply.drives.value, library))
      && (e.result.Ok? ==> e.result == FindDrive(reply.drives.value, library))
      && (RaisesForStatus(reply.status) ==> e.result == Err(HttpError(reply.status)))
      && (!RaisesForStatus(reply.status) && reply.drives.None? ==> e.result == Err(MissingKey("value")))
      && (!RaisesForStatus(reply.status) && reply.drives.Some? ==> e.result == FindDrive(reply.drives.value, library))
  {
    var call := ListDrives(siteId);
    var reply := net(call);
    if RaisesForStatus(reply.status) then Exchange(Err(HttpError(reply.status)), [call])
    else if reply.drives.None? then Exchange(Err(MissingKey("value")), [call])
    else Exchange(FindDrive(reply.drives.value, library), [call])
  }
}
