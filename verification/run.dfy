/** The run of `src/main.py`: the configuration check, the per-file steps of
    the transfer loop and the three counters of the summary. Every call that
    reaches Zoom, SharePoint or the disk is an `Action` in the trace; whether
    it raises is decided by a `Fate` the caller supplies for each file. */
module Run {
  import opened Base
  import opened Strings
  import opened Naming

  // ---------------------------------------------------------------------
  // Configuration

  /** The variables the Zoom side always needs. */
  const ZoomVars: seq<string> := ["ZOOM_ACCOUNT_ID", "ZOOM_CLIENT_ID", "ZOOM_CLIENT_SECRET", "ZOOM_GROUP_ID"]

  /** The variables the SharePoint side needs outside download-only mode. */
  const SharePointVars: seq<string> := ["SP_TENANT_ID", "SP_CLIENT_ID", "SP_CLIENT_SECRET", "SP_SITE_URL"]

  /** `os.getenv(name)`: the value when the variable is set. */
  function GetEnv(env: map<string, string>, name: string): Option<string> {
    if name in env then Some(env[name]) else None
  }

  /** The variables checked, in the order of the `required_vars` dictionary. */
  function RequiredVars(downloadOnly: bool): seq<string> {
    if downloadOnly then ZoomVars else ZoomVars + SharePointVars
  }

  /** The names among `names` whose value is unset or empty, in order. */
  function Missing(env: map<string, string>, names: seq<string>): (r: seq<string>)
    ensures forall n :: n in r <==> n in names && !Truthy(GetEnv(env, n))
    decreases |names|
  {
    if |names| == 0 then []
    else
      var rest := Missing(env, names[1..]);
      assert forall n :: n in names <==> n == names[0] || n in names[1..];
      if Truthy(GetEnv(env, names[0])) then rest else [names[0]] + rest
  }

  /** `missing_vars`: every required variable that is unset or empty. */
  function MissingVars(env: map<string, string>, downloadOnly: bool): (r: seq<string>)
    ensures forall n :: n in r <==> n in RequiredVars(downloadOnly) && !Truthy(GetEnv(env, n))
  {
    Missing(env, RequiredVars(downloadOnly))
  }

  /** Download-only mode never asks for a SharePoint variable, and a missing
      Zoom variable is reported in both modes. */
  lemma DownloadOnlyNeedsNoSharePoint(env: map<string, string>, name: string)
    ensures name in MissingVars(env, true) ==> name in ZoomVars
    ensures name in ZoomVars && !Truthy(GetEnv(env, name)) ==>
      name in MissingVars(env, true) && name in MissingVars(env, false)
  {
  }

  /** In download-only mode the SharePoint variables do not affect the check. */
  lemma {:induction false} DownloadOnlyIgnoresSharePointVars(e1: map<string, string>, e2: map<string, string>)
    requires forall n :: n in ZoomVars ==> GetEnv(e1, n) == GetEnv(e2, n)
    ensures MissingVars(e1, true) == MissingVars(e2, true)
  {
    MissingAgree(e1, e2, ZoomVars);
  }

  lemma {:induction false} MissingAgree(e1: map<string, string>, e2: map<string, string>, names: seq<string>)
    requires forall n :: n in names ==> GetEnv(e1, n) == GetEnv(e2, n)
    ensures Missing(e1, names) == Missing(e2, names)
    decreases |names|
  {
    if |names| > 0 {
      assert names[0] in names;
      MissingAgree(e1, e2, names[1..]);
    }
  }

  /** The command-line arguments. */
  datatype Args = Args(fromDate: string, toDate: string, downloadDir: Option<string>, downloadOnly: bool)

  /** What the transfer loop reads from the configuration. */
  datatype Config = Config(downloadDir: string, downloadOnly: bool, videoLibrary: string, audioLibrary: string)

  /** The SharePoint client's settings; there is no client in download-only mode. */
  datatype SharePointSettings = SharePointSettings(tenantId: string, clientId: string, clientSecret: string, siteUrl: string)

  datatype Setup = Setup(groupId: string, sharePoint: Option<SharePointSettings>, config: Config)

  /** The start of `main`: exit with the missing names, or the settings of
      the run. */
  function Configure(env: map<string, string>, args: Args): (r: Result<Setup, seq<string>>)
    ensures r.Err? <==> MissingVars(env, args.downloadOnly) != []
    ensures r.Err? ==> r.error == MissingVars(env, args.downloadOnly)
    ensures r.Ok? ==> (r.value.sharePoint.None? <==> args.downloadOnly)
    ensures r.Ok? ==> r.value.config.downloadOnly == args.downloadOnly
    ensures r.Ok? ==> r.value.groupId == env["ZOOM_GROUP_ID"] && r.value.groupId != ""
  {
    var missing := MissingVars(env, args.downloadOnly);
    if missing != [] then Err(missing)
    else
      assert forall n :: n in RequiredVars(args.downloadOnly) ==> Truthy(GetEnv(env, n));
      assert "ZOOM_GROUP_ID" in RequiredVars(args.downloadOnly);
      var dir := if Truthy(args.downloadDir) then args.downloadDir.value
                 else GetEnv(env, "DOWNLOAD_DIR").GetOr("./downloads");
      var config := Config(dir, args.downloadOnly,
                           GetEnv(env, "SP_VIDEO_LIBRARY").GetOr("ZoomVideo"),
                           GetEnv(env, "SP_AUDIO_LIBRARY").GetOr("ZoomAudio"));
      var sp := if args.downloadOnly then None
                else
                  assert RequiredVars(false)[4..] == SharePointVars;
                  assert "SP_TENANT_ID" in RequiredVars(false) && "SP_CLIENT_ID" in RequiredVars(false);
                  assert "SP_CLIENT_SECRET" in RequiredVars(false) && "SP_SITE_URL" in RequiredVars(false);
                  Some(SharePointSettings(env["SP_TENANT_ID"], env["SP_CLIENT_ID"],
                                          env["SP_CLIENT_SECRET"], env["SP_SITE_URL"]));
      Ok(Setup(env["ZOOM_GROUP_ID"], sp, config))
  }

  // ---------------------------------------------------------------------
  // Local paths

  /** POSIX `os.path.join(dir, name)`. */
  function PathJoin(dir: string, name: string): string {
    if StartsWith(name, "/") then name
    else if dir == "" || EndsWith(dir, "/") then dir + name
    else dir + "/" + name
  }

  /** POSIX `os.path.basename(p)`: the text after the last slash. */
  function Basename(p: string): string {
    var parts := Split(p, '/');
    parts[|parts| - 1]
  }

  /** A file name without slashes keeps its name inside any download
      directory, so the upload is named after it. */
  lemma {:induction false} BasenameOfJoin(dir: string, name: string)
    requires '/' !in name
    ensures Basename(PathJoin(dir, name)) == name
  {
    SplitNoSep(name, '/');
    if name == "" || name[0] != '/' {
      if dir == "" {
        assert dir + name == name;
      } else if EndsWith(dir, "/") {
        assert dir + name == dir[..|dir| - 1] + "/" + name;
        SplitAppend(dir[..|dir| - 1], name, '/');
      } else {
        SplitAppend(dir, name, '/');
      }
    }
  }

  // ---------------------------------------------------------------------
  // One file of the transfer loop

  /** One recording file together with the meeting and user it was listed under. */
  datatype Job = Job(userEmail: Option<string>, meeting: Meeting, file: RecordingFile)

  /** The SharePoint list fields set on an uploaded file. */
  datatype Fields = Fields(meetingId: string, host: Option<string>, recordingStart: string)

  /** The calls the loop makes for one file. */
  datatype Action =
    | Download(url: string, localPath: string)
    | EnsureFolder(library: string, folder: string)
    | Upload(localPath: string, folder: string, library: string, fields: Fields)
    | RemoveLocal(localPath: string)
    /** The removal of a leftover file after a failure; its errors are swallowed. */
    | CleanupLocal(localPath: string)

  /** Calls that reach SharePoint. */
  predicate TouchesSharePoint(a: Action) {
    a.EnsureFolder? || a.Upload?
  }

  /** Whether each call that can fail the file succeeds: the token fetch and
      download, the upload (with its metadata patch), and the removal of the
      local copy. Folder creation errors are swallowed and need no fate. */
  datatype Fate = Fate(downloadOk: bool, uploadOk: bool, removeOk: bool)

  datatype Outcome = Skipped | Succeeded | Failed

  function LibraryName(config: Config, lib: Library): string {
    match lib
    case VideoLibrary => config.videoLibrary
    case AudioLibrary => config.audioLibrary
  }

  function LocalPath(config: Config, job: Job): string {
    PathJoin(config.downloadDir, RecordingFileName(job.meeting, job.file))
  }

  /** The metadata `MeetingID`, `Host` and `RecordingStart` set on an
      upload. An absent id prints as "None"; the host falls back to the
      e-mail of the member whose listing held the meeting; the recording
      start falls back to the meeting's start time, and that to "". */
  function FieldsOf(job: Job): (f: Fields)
    ensures f.meetingId == if job.meeting.id.Some? then job.meeting.id.value else "None"
    ensures job.meeting.hostEmail.Some? ==> f.host == job.meeting.hostEmail
    ensures job.meeting.hostEmail.None? ==> f.host == job.userEmail
    ensures job.file.recordingStart.Some? ==> f.recordingStart == job.file.recordingStart.value
    ensures job.file.recordingStart.None? && job.meeting.startTime.Some? ==>
      f.recordingStart == job.meeting.startTime.value
    ensures job.file.recordingStart.None? && job.meeting.startTime.None? ==> f.recordingStart == ""
  {
    Fields(job.meeting.id.GetOr("None"),
           if job.meeting.hostEmail.Some? then job.meeting.hostEmail else job.userEmail,
           job.file.recordingStart.GetOr(job.meeting.startTime.GetOr("")))
  }

  /** Whether a file is skipped, succeeds or fails: only its own download
      URL and fate, and the mode, decide. */
  function FileOutcome(downloadOnly: bool, hasUrl: bool, fate: Fate): (o: Outcome)
    ensures o == Skipped <==> !hasUrl
    ensures o == Succeeded <==> hasUrl && fate.downloadOk && (downloadOnly || (fate.uploadOk && fate.removeOk))
  {
    if !hasUrl then Skipped
    else if !fate.downloadOk then Failed
    else if downloadOnly then Succeeded
    else if !fate.uploadOk || !fate.removeOk then Failed
    else Succeeded
  }

  /** The SharePoint side of one file in transfer mode, after its download:
      ensure the folder, upload, remove the local copy, and clean up after a
      failure. */
  function TransferActions(local: string, library: string, folder: string, fields: Fields, fate: Fate): (actions: seq<Action>)
    ensures forall a :: a in actions && a.Upload? ==> a == Upload(local, folder, library, fields)
    ensures fate.downloadOk ==> |actions| >= 2 && actions[..2] == [EnsureFolder(library, folder), Upload(local, folder, library, fields)]
    ensures RemoveLocal(local) in actions <==> fate.downloadOk && fate.uploadOk
    ensures CleanupLocal(local) in actions <==> !(fate.downloadOk && fate.uploadOk && fate.removeOk)
  {
    var upload := [EnsureFolder(library, folder), Upload(local, folder, library, fields)];
    if !fate.downloadOk then [CleanupLocal(local)]
    else if !fate.uploadOk then upload + [CleanupLocal(local)]
    else if !fate.removeOk then upload + [RemoveLocal(local), CleanupLocal(local)]
    else upload + [RemoveLocal(local)]
  }

  /** What the innermost loop derives from one file before acting on it:
      its download URL, local path, routed library, dated folder and the
      list fields. */
  datatype FilePlan = FilePlan(downloadUrl: Option<string>, localPath: string, library: string,
                               folder: string, fields: Fields)

  function PlanOf(config: Config, job: Job): FilePlan {
    FilePlan(job.file.downloadUrl, LocalPath(config, job),
             LibraryName(config, RouteExtension(ExtensionOf(job.file))),
             DateFolderPath(DateOf(job.meeting)), FieldsOf(job))
  }

  /** Every call is a download. */
  predicate OnlyDownloads(actions: seq<Action>) {
    forall i :: 0 <= i < |actions| ==> actions[i].Download?
  }

  /** The calls the innermost loop makes for one planned file: nothing
      without a download URL; the download; and, outside download-only
      mode, the SharePoint side. */
  function PlannedActions(downloadOnly: bool, plan: FilePlan, fate: Fate): (actions: seq<Action>)
    ensures !Truthy(plan.downloadUrl) ==> actions == []
    ensures Truthy(plan.downloadUrl) ==>
      |actions| > 0 && actions[0] == Download(plan.downloadUrl.value, plan.localPath)
    ensures downloadOnly ==> OnlyDownloads(actions)
    ensures !downloadOnly && Truthy(plan.downloadUrl) && fate.downloadOk ==>
      Upload(plan.localPath, plan.folder, plan.library, plan.fields) in actions
  {
    if !Truthy(plan.downloadUrl) then []
    else
      var download := Download(plan.downloadUrl.value, plan.localPath);
      if downloadOnly then [download]
      else
        var transfer := TransferActions(plan.localPath, plan.library, plan.folder, plan.fields, fate);
        assert fate.downloadOk ==> transfer[1] in transfer;
        [download] + transfer
  }

  /** The calls for one file of the listing. */
  function FileActions(config: Config, job: Job, fate: Fate): seq<Action> {
    PlannedActions(config.downloadOnly, PlanOf(config, job), fate)
  }

  /** A transfer goes to the routed library's dated folder, from the file's
      local path, and only outside download-only mode after a download. */
  lemma UploadTarget(config: Config, job: Job, fate: Fate, a: Action)
    requires a in FileActions(config, job, fate) && a.Upload?
    ensures a.library == LibraryName(config, RouteExtension(ExtensionOf(job.file)))
    ensures a.folder == DateFolderPath(DateOf(job.meeting))
    ensures a.localPath == LocalPath(config, job)
    ensures a.fields == FieldsOf(job)
    ensures !config.downloadOnly && fate.downloadOk && Truthy(job.file.downloadUrl)
  {
    PlannedUpload(config.downloadOnly, PlanOf(config, job), fate, a);
  }

  /** The one upload a planned file may make carries the plan's path,
      folder, library and fields, and only outside download-only mode after
      a download. */
  lemma PlannedUpload(downloadOnly: bool, plan: FilePlan, fate: Fate, a: Action)
    requires a in PlannedActions(downloadOnly, plan, fate) && a.Upload?
    ensures a == Upload(plan.localPath, plan.folder, plan.library, plan.fields)
    ensures !downloadOnly && fate.downloadOk && Truthy(plan.downloadUrl)
  {
  }

  /** The body of the innermost loop for one file: its outcome and its calls. */
  function ProcessFile(config: Config, job: Job, fate: Fate): (Outcome, seq<Action>)
  {
    (FileOutcome(config.downloadOnly, Truthy(job.file.downloadUrl), fate), FileActions(config, job, fate))
  }

  /** The name a transfer is stored under in SharePoint is the computed file
      name, as long as the name has no slash in it. */
  lemma UploadNameIsFileName(config: Config, job: Job)
    requires '/' !in RecordingFileName(job.meeting, job.file)
    ensures Basename(LocalPath(config, job)) == RecordingFileName(job.meeting, job.file)
  {
    BasenameOfJoin(config.downloadDir, RecordingFileName(job.meeting, job.file));
  }

  // ---------------------------------------------------------------------
  // The whole loop

  /** The files of the listing in the order of the three nested loops:
      users, then their meetings, then the meetings' recording files. */
  function MeetingJobs(user: Option<string>, meetings: seq<Meeting>): (jobs: seq<Job>)
    decreases |meetings|
  {
    if |meetings| == 0 then []
    else
      (seq(|meetings[0].recordingFiles|, i requires 0 <= i < |meetings[0].recordingFiles| =>
           Job(user, meetings[0], meetings[0].recordingFiles[i])))
      + MeetingJobs(user, meetings[1..])
  }

  function Jobs(listing: seq<(Option<string>, seq<Meeting>)>): seq<Job>
    decreases |listing|
  {
    if |listing| == 0 then [] else MeetingJobs(listing[0].0, listing[0].1) + Jobs(listing[1..])
  }

  /** The plans of the listed files, in order. */
  function Plans(config: Config, jobs: seq<Job>): seq<FilePlan> {
    seq(|jobs|, i requires 0 <= i < |jobs| => PlanOf(config, jobs[i]))
  }

  /** The number of files among the first `n` with outcome `o`. */
  function CountOutcome(downloadOnly: bool, plans: seq<FilePlan>, fates: nat -> Fate, n: nat, o: Outcome): (c: nat)
    requires n <= |plans|
    ensures c <= n
  {
    if n == 0 then 0
    else CountOutcome(downloadOnly, plans, fates, n - 1, o) +
         (if FileOutcome(downloadOnly, Truthy(plans[n - 1].downloadUrl), fates(n - 1)) == o then 1 else 0)
  }

  /** The number of files among the first `n` that have a download URL. */
  function CountWithUrl(plans: seq<FilePlan>, n: nat): nat
    requires n <= |plans|
  {
    if n == 0 then 0 else CountWithUrl(plans, n - 1) + (if Truthy(plans[n - 1].downloadUrl) then 1 else 0)
  }

  /** The calls of the first `n` files, in order. */
  function TraceOf(downloadOnly: bool, plans: seq<FilePlan>, fates: nat -> Fate, n: nat): seq<Action>
    requires n <= |plans|
  {
    if n == 0 then [] else TraceOf(downloadOnly, plans, fates, n - 1) + PlannedActions(downloadOnly, plans[n - 1], fates(n - 1))
  }

  /** Every file has exactly one outcome; skipped files are exactly those
      without a download URL. */
  lemma {:induction false} OutcomesPartition(downloadOnly: bool, plans: seq<FilePlan>, fates: nat -> Fate, n: nat)
    requires n <= |plans|
    ensures CountOutcome(downloadOnly, plans, fates, n, Succeeded) + CountOutcome(downloadOnly, plans, fates, n, Failed)
            + CountOutcome(downloadOnly, plans, fates, n, Skipped) == n
    ensures CountOutcome(downloadOnly, plans, fates, n, Succeeded) + CountOutcome(downloadOnly, plans, fates, n, Failed)
            == CountWithUrl(plans, n)
  {
    if n > 0 {
      OutcomesPartition(downloadOnly, plans, fates, n - 1);
    }
  }

  /** Changing what happens to one file changes each counter by at most one:
      a failure never spreads to other files. The fates are independent
      inputs, one per file index, so this holds by construction: the count
      is a sum over files and only the term of file `j` can change. */
  lemma {:induction false} FailureIsolation(downloadOnly: bool, plans: seq<FilePlan>, f1: nat -> Fate, f2: nat -> Fate,
                                            j: nat, n: nat, o: Outcome)
    requires n <= |plans|
    requires forall i :: i != j ==> f1(i) == f2(i)
    ensures -1 <= CountOutcome(downloadOnly, plans, f1, n, o) - CountOutcome(downloadOnly, plans, f2, n, o) <= 1
    ensures n <= j ==> CountOutcome(downloadOnly, plans, f1, n, o) == CountOutcome(downloadOnly, plans, f2, n, o)
  {
    if n > 0 {
      FailureIsolation(downloadOnly, plans, f1, f2, j, n - 1, o);
      if n - 1 != j {
        assert f1(n - 1) == f2(n - 1);
      } else {
        assert CountOutcome(downloadOnly, plans, f1, n - 1, o) == CountOutcome(downloadOnly, plans, f2, n - 1, o);
      }
    }
  }

  /** The summary the run prints, or the early return when the listing is empty. */
  datatype Summary = NoRecordings | Summary(total: nat, successful: nat, failed: nat)

  /** Two call sequences made only of downloads concatenate to one. */
  lemma OnlyDownloadsAppend(a: seq<Action>, b: seq<Action>)
    requires OnlyDownloads(a) && OnlyDownloads(b)
    ensures OnlyDownloads(a + b)
  {
    assert forall i :: |a| <= i < |a + b| ==> (a + b)[i] == b[i - |a|];
  }

  /** Download-only mode never puts a SharePoint call in the trace. */
  lemma {:induction false} DownloadOnlyTrace(plans: seq<FilePlan>, fates: nat -> Fate, n: nat)
    requires n <= |plans|
    ensures OnlyDownloads(TraceOf(true, plans, fates, n))
  {
    if n > 0 {
      DownloadOnlyTrace(plans, fates, n - 1);
      OnlyDownloadsAppend(TraceOf(true, plans, fates, n - 1), PlannedActions(true, plans[n - 1], fates(n - 1)));
    }
  }

  /** The innermost loop body run over every file in listing order,
      keeping the counters and the calls. */
  method TransferLoop(downloadOnly: bool, plans: seq<FilePlan>, fates: nat -> Fate)
    returns (successful: nat, failed: nat, trace: seq<Action>)
    ensures successful == CountOutcome(downloadOnly, plans, fates, |plans|, Succeeded)
    ensures failed == CountOutcome(downloadOnly, plans, fates, |plans|, Failed)
    ensures trace == TraceOf(downloadOnly, plans, fates, |plans|)
  {
    var total := 0;
    successful, failed := 0, 0;
    trace := [];
    while total < |plans|
      invariant total <= |plans|
      invariant successful == CountOutcome(downloadOnly, plans, fates, total, Succeeded)
      invariant failed == CountOutcome(downloadOnly, plans, fates, total, Failed)
      invariant trace == TraceOf(downloadOnly, plans, fates, total)
    {
      var plan, fate := plans[total], fates(total);
      trace := trace + PlannedActions(downloadOnly, plan, fate);
      match FileOutcome(downloadOnly, Truthy(plan.downloadUrl), fate) {
        case Succeeded => successful := successful + 1;
        case Failed => failed := failed + 1;
        case Skipped =>
      }
      total := total + 1;
    }
  }

  /** The transfer part of `main`: an empty listing returns early;
      otherwise every file is counted once, the successes and failures
      together are the files with a download URL, and download-only mode
      makes nothing but downloads. */
  method RunTransfers(config: Config, listing: seq<(Option<string>, seq<Meeting>)>, fates: nat -> Fate)
    returns (summary: Summary, trace: seq<Action>)
    ensures listing == [] <==> summary == NoRecordings
    ensures summary.Summary? ==>
      var plans := Plans(config, Jobs(listing));
      && summary.total == |Jobs(listing)|
      && summary.successful == CountOutcome(config.downloadOnly, plans, fates, |plans|, Succeeded)
      && summary.failed == CountOutcome(config.downloadOnly, plans, fates, |plans|, Failed)
      && summary.successful + summary.failed == CountWithUrl(plans, |plans|)
      && trace == TraceOf(config.downloadOnly, plans, fates, |plans|)
    ensures summary == NoRecordings ==> trace == []
    ensures config.downloadOnly ==> OnlyDownloads(trace)
  {
    if listing == [] {
      return NoRecordings, [];
    }
    var plans := Plans(config, Jobs(listing));
    var successful, failed;
    successful, failed, trace := TransferLoop(config.downloadOnly, plans, fates);
    OutcomesPartition(config.downloadOnly, plans, fates, |plans|);
    if config.downloadOnly {
      DownloadOnlyTrace(plans, fates, |plans|);
    }
    summary := Summary(|plans|, successful, failed);
  }
}
