# Zoom recordings to SharePoint — a Dafny model

This project models the core of a command-line tool. The tool lists the cloud
recordings of every member of a Zoom group over a date window. It downloads
each recording file, files it into a SharePoint document library under a
`YYYY/MM - Month/YYYY-MM-DD` folder, tags it with meeting metadata and
deletes the local copy. It also has a download-only mode.

The model covers three source files:

- `src/main.py` is the orchestration. Modelled: the required environment
  variables and the client gating; the naming of the date folder, the topic
  and the file; the routing of an extension to the video or audio library;
  the per-file action sequence; and the success, failure and total counters.
- `src/sharepoint_client.py` is the Microsoft Graph client. Modelled: the
  site-id resolution from the site URL; the drive lookup by name; the item
  path; the nested folder creation that tolerates 409; the choice between a
  simple and a resumable upload at 4 MiB; the 10 MiB chunk plan and its
  `Content-Range` headers; the chunk loop; and the metadata patch.
- `src/zoom_client.py` is the Zoom client. Modelled: the token cache with
  its five-minute margin; the paginated listings of group members and of
  user recordings, including the 404 tolerance; and the aggregation of a
  group's recordings by e-mail.

The network is never called. Each Graph request is answered by a function
from request to reply that the caller supplies (`Graph.Call -> Graph.Reply`).
Each Zoom listing reads a finite script of pages. The outcome of downloading,
uploading and deleting each file comes from a function of the file's
position (`Run.Fate`). Every operation returns its result together with the
requests it issued, in order. The contracts therefore speak about which
requests are sent, with which arguments, and what follows from which replies.

Modules: `Base` (Option, Result, Python truthiness, `raise_for_status`),
`Strings` (Python `split`, `join`, `replace`, `strip`, `lower`, `isalnum`),
`Decimal` (`str(int)` and its inverse), `Naming`, `Run`, `Chunks`, `Graph`,
`Site`, `Folders`, `Upload`, `Listing` and `Tokens`.

## Model

| member | source | states |
|---|---|---|
| Strings.Split | src/main.py:181 | `str.split` on one character: at least one field, no field holds the separator, and joining the fields with the separator gives the string back |
| Strings.SplitJoin | src/sharepoint_client.py:332 | splitting the join of separator-free fields gives the fields back |
| Strings.ReplaceCharPointwise | src/main.py:179 | replacing one character by another changes exactly the positions holding it and keeps the length |
| Strings.Strip | src/main.py:203 | `str.strip` keeps a contiguous middle of the string; everything removed before and after it is a stripped character, and the middle neither starts nor ends with one |
| Strings.StripUnique | src/main.py:203 | any cut of a string into a stripped-character prefix, a middle that neither starts nor ends with one, and a stripped-character suffix has `strip`'s result as its middle |
| Strings.StripFixpoint | src/main.py:203 | `strip` leaves a string unchanged exactly when neither end is a stripped character |
| Strings.LowerIdempotent | src/main.py:213-215 | lower-casing twice equals lower-casing once |
| Decimal.ParseNatToString | src/sharepoint_client.py:286-289 | the decimal rendering of a number parses back to the number |
| Decimal.NatToStringInjective | src/sharepoint_client.py:286-289 | distinct numbers render to distinct strings |
| Naming.MonthName | src/main.py:153-159 | the name is "Unknown" exactly when the key is not one of "01".."12", and no name contains "/" |
| Naming.MonthNameIsTableLookup | src/main.py:154-159 | the month name is the lookup of the key in the twelve-entry month table, with "Unknown" for any other key |
| Naming.MonthNameOfNumber | src/main.py:153-159 | the zero-padded two-digit form of every month 1..12 maps to that month's name |
| Naming.DateFolderPath | src/main.py:162-170 | the folder path ends with "/" followed by the date itself |
| Naming.DateFolderPathLevels | src/main.py:162-170 | for an ISO date the path has exactly three levels: the year, "MM - MonthName" and the date, with a real month name exactly when the month field is 01..12 |
| Naming.DateFolderPathLastLevel | src/main.py:162-170 | for any slash-free date the last level of the path is the date |
| Naming.DateFolderPathInjective | src/main.py:162-170 | two slash-free dates with the same folder path are equal |
| Naming.MeetingDate | src/main.py:180-181 | the meeting date is the part of the start time before the first "T", or all of it when there is none |
| Naming.MeetingTopic | src/main.py:179 | the topic (default "Unknown") keeps its length, and every "/" and "\\" becomes "-" while every other character is kept |
| Naming.SlashBecomesDash | src/main.py:179 | topics that differ only by "/" or "\\" versus "-" at one place give the same cleaned topic |
| Naming.KeepTopicChars | src/main.py:203 | the filter keeps only letters, digits, space, "-" and "_"; one character is kept exactly when it is one of those; a string made only of those is unchanged |
| Naming.KeepTopicCharsAppend | src/main.py:203 | filtering a concatenation is the concatenation of the filtered parts |
| Naming.SafeTopic | src/main.py:203 | the safe topic holds only letters, digits, space, "-" and "_", and neither starts nor ends with a space; it is a contiguous piece of the filtered topic, and only spaces were removed before and after it |
| Naming.SafeTopicFixpoint | src/main.py:203 | sanitising leaves a topic unchanged exactly when it is already safe |
| Naming.SafeTopicIdempotent | src/main.py:203 | sanitising twice equals sanitising once |
| Naming.FileName | src/main.py:204 | the file name holds the date, the safe topic, the recording type and the extension in that order, at the positions that "_", "_" and "." between them imply, and nothing else |
| Naming.FileNameExtension | src/main.py:204 | for a dot-free extension the last dot-separated field of the name is the extension |
| Naming.FileNameHasNoSeparator | src/main.py:179-204 | the sanitised topic never contains a backslash, and the file name contains no "/" when the date, recording type and extension do not |
| Naming.RouteExtension | src/main.py:211-219 | an extension goes to the audio library exactly when it lower-cases to "m4a" or "vtt"; everything else, "mp4" included, goes to the video library |
| Naming.RouteIgnoresCase | src/main.py:213-215 | routing depends only on the lower-cased extension |
| Naming.RouteExamples | src/main.py:211-219 | "MP4" and "txt" and "" are routed to video; "M4A" and "Vtt" to audio |
| Run.Missing | src/main.py:90 | a name is reported missing exactly when it is required and its value is absent or empty |
| Run.MissingVars | src/main.py:75-90 | a variable is missing exactly when it is in the mode's required set and is unset or empty |
| Run.DownloadOnlyNeedsNoSharePoint | src/main.py:75-88 | in download-only mode only Zoom variables can be missing, and an unset Zoom variable is reported |
| Run.DownloadOnlyIgnoresSharePointVars | src/main.py:82-88 | in download-only mode the missing list does not depend on the SharePoint variables |
| Run.MissingAgree | src/main.py:90 | environments that agree on the required names report the same missing list |
| Run.Configure | src/main.py:50-93 | setup fails exactly when a required variable is missing, and reports that list; on success the SharePoint client exists exactly when the mode is not download-only |
| Run.BasenameOfJoin | src/main.py:207 | the base name of the joined local path is the slash-free file name |
| Run.FileOutcome | src/main.py:198-276 | a file is skipped exactly when it has no download URL, and succeeds exactly when it is downloaded and, outside download-only mode, also uploaded and removed |
| Run.TransferActions | src/main.py:238-276 | after a download the folder is ensured and then the upload issued to that folder and library; the local file is removed exactly when the upload succeeded, and cleaned up exactly when some step failed |
| Run.PlannedActions | src/main.py:194-276 | no download URL means no action; otherwise the first action is the download; download-only mode never touches SharePoint; a successful download in transfer mode leads to the upload |
| Run.UploadTarget | src/main.py:207-259 | every upload action targets the library the extension routes to, the date folder of the meeting and the local path of the file, and happens only in transfer mode after a download; it carries the meeting's metadata fields |
| Run.FieldsOf | src/main.py:245-249 | the metadata fields: the meeting id, or "None" when absent; the meeting's host e-mail, or the member's e-mail when absent; the file's recording start, or else the meeting's start time, or else "" |
| Run.UploadNameIsFileName | src/main.py:204-207 | when the computed file name holds no "/", the uploaded file's name is that file name |
| Run.OutcomesPartition | src/main.py:189-268 | every file counts exactly once as a success, a failure or a skip, and successes plus failures equal the files with a download URL |
| Run.FailureIsolation | src/main.py:225-276 | changing the fate of one file changes each counter by at most one, and not at all for the files before it; since each file's fate is its own input, this records that the counters add up per file rather than showing that failures are contained |
| Run.DownloadOnlyTrace | src/main.py:231-234 | in download-only mode the whole run issues no SharePoint action |
| Run.TransferLoop | src/main.py:172-276 | the loop's counters and action trace are the per-file counts and the concatenated per-file actions |
| Run.RunTransfers | src/main.py:139-276 | an empty listing ends the run with nothing done; otherwise the total is the number of recording files, successes plus failures are the files with a URL, and download-only runs never touch SharePoint |
| Chunks.ChooseStrategy | src/sharepoint_client.py:172-175 | the simple upload is chosen exactly for sizes below 4 MiB |
| Chunks.PlanChunks | src/sharepoint_client.py:276-296 | the loop produces a contiguous plan of chunks of at most 10 MiB that starts at 0 and ends at the file size |
| Chunks.PlanUnique | src/sharepoint_client.py:281-296 | there is only one well-formed plan for a size |
| Chunks.ChunkPosition | src/sharepoint_client.py:282-283 | chunk i starts at i times 10 MiB and ends 10 MiB later or at the file size |
| Chunks.ExactCover | src/sharepoint_client.py:281-296 | every byte of the file lies in exactly one chunk |
| Chunks.ChunkCount | src/sharepoint_client.py:281-296 | the number of chunks is the size divided by 10 MiB, rounded up |
| Chunks.ResumableHasChunks | src/sharepoint_client.py:175 | a file sent by a session has at least one chunk |
| Chunks.ContentRangeRoundTrip | src/sharepoint_client.py:286-289 | the Content-Range header parses back to the chunk's first byte, last byte and the file size |
| Chunks.PlanHeadersValid | src/sharepoint_client.py:286-289 | every planned chunk's header names a non-empty range inside the file, and its Content-Length is the chunk's length |
| Chunks.ChunkInFile | src/sharepoint_client.py:283 | every planned chunk is non-empty and ends within the file |
| Graph.ItemPath | src/sharepoint_client.py:122-124 | the item path always starts with "/" |
| Graph.CollapseNoDouble | src/sharepoint_client.py:122 | collapsing leaves a path without "//" unchanged |
| Graph.CollapseRemovesDoubles | src/sharepoint_client.py:122 | a path without three adjacent slashes has no "//" after collapsing |
| Graph.CollapseTripleExample | src/sharepoint_client.py:122 | three slashes collapse to two, since the replacement does not overlap |
| Graph.ItemPathPlain | src/sharepoint_client.py:122-124 | for a folder and name that join without "//", the path is the folder, "/" and the name, rooted at "/" |
| Graph.ItemPathNoDoubleSlash | src/sharepoint_client.py:122-124 | an item path built without "///" holds no "//" |
| Site.ParseSiteUrl | src/sharepoint_client.py:81-83 | the host name holds no "/", the site path is empty or starts with "/", and together they are the URL without "https://" |
| Site.SiteUrlRoundTrip | src/sharepoint_client.py:81-83 | for "https://" and a colon-free rest, the host is the rest up to its first "/" and the host and path together give the rest back |
| Site.SiteIdCached | src/sharepoint_client.py:73-96 | once a site id has been resolved, resolving again with it returns the same id without any request |
| Site.ResolveSiteId | src/sharepoint_client.py:73-96 | a set site id is returned with no request; with neither id nor URL a ValueError is raised with no request; otherwise one GET is issued, and it succeeds exactly when the reply does not raise and carries an id |
| Site.FindDrive | src/sharepoint_client.py:204-209 | a drive id is found exactly when a drive has the library's name; it is the id of the first such drive; otherwise the "not found" ValueError is raised |
| Site.FindDriveAppend | src/sharepoint_client.py:205-207 | drives after the first match are never looked at, and drives before a match do not matter when they do not match |
| Site.ResolveDrive | src/sharepoint_client.py:200-209 | one drive-list request is issued; an error status fails with that status, a reply without "value" fails with the missing key, and otherwise the result is the name lookup, including its "not found" error |
| Folders.PathBeforeIsJoin | src/sharepoint_client.py:335-359 | the path accumulated before level k is the first k levels joined with "/" |
| Folders.FolderRequestParents | src/sharepoint_client.py:336-341 | the first level is created under the drive root and level k under the first k levels joined with "/" |
| Folders.CreateLevels | src/sharepoint_client.py:336-361 | one create request goes out per level, in order, with the right parent; the loop stops at the first reply that is neither 200, 201 nor 409 and raises; otherwise all levels are sent and the result is "created" with the original path |
| Folders.CreateFolder | src/sharepoint_client.py:332-361 | one create request goes out per level of the stripped and split path, in order, with the right parent; no reply before the last one sent aborts; the result is "created" with the original path exactly when all levels were sent without an abort, and otherwise the error carries the last reply's status |
| Folders.DateFolderLevels | src/sharepoint_client.py:332 | the date folder of an ISO date splits into the year, the month folder and the date |
| Upload.UploadSmall | src/sharepoint_client.py:235-247 | one content PUT goes to the drive at a path rooted at "/", with no empty segment when folder and name do not meet in three slashes; it fails exactly when its status raises, with that status |
| Upload.OpenSession | src/sharepoint_client.py:115-138 | one session request for the item path and name; a raising status or a reply without an upload URL fails |
| Upload.ChunkRequestAnnounces | src/sharepoint_client.py:286-289 | a chunk request's Content-Range reads back as the chunk's first byte, last byte and the file size, and its Content-Length reads back as the chunk's length |
| Upload.ChunkRequests | src/sharepoint_client.py:281-291 | there is one request per planned chunk, in order; request k goes to the session URL and its headers read back as chunk k's range, the file size and chunk k's length |
| Upload.SendChunks | src/sharepoint_client.py:281-300 | the chunks sent are a prefix of the planned requests; with no chunk there is no reply to return |
| Upload.SendChunksOutcome | src/sharepoint_client.py:291-300 | every chunk before the last sent one was accepted; the upload succeeds exactly when all chunks are sent and the last is accepted, returning the last reply; otherwise it fails with the status of the failing chunk |
| Upload.RequestsCoverFile | src/sharepoint_client.py:276-291 | the chunk requests of the whole plan lie within the file, name its size, and carry every byte of it exactly once |
| Upload.LargeUploadSendsWholePlan | src/sharepoint_client.py:272-300 | a successful large upload sent every planned chunk after the session request |
| Upload.LargeUploadCoversFile | src/sharepoint_client.py:272-300 | after a successful session upload, the requests after the session request lie within the file, name its size, and carry every byte of the file exactly once |
| Upload.PatchAfter | src/sharepoint_client.py:178-181 | the metadata patch is sent exactly when the upload succeeded, the metadata is non-empty and the reply has an id; a failing patch fails the call, and otherwise the upload result is returned |
| Upload.UploadBySize | src/sharepoint_client.py:172-175 | below 4 MiB it is the simple upload, otherwise the session upload; it sends only content requests, so no patch |
| Upload.UploadBySizeDelivers | src/sharepoint_client.py:172-175 | a successful upload by size is one PUT to the item path below 4 MiB, and otherwise a session request followed by chunk requests that carry every byte of the file exactly once |
| Upload.ResolveTarget | src/sharepoint_client.py:162-166 | the site is resolved first and its error ends the call; the drives are listed, once, exactly when the site was found and no drive id was given, and then the result is the drive lookup; a given drive id is used as is |
| Upload.UploadTo | src/sharepoint_client.py:171-181 | once the drive is known: the upload's requests come first, and the call succeeds only when the upload did, returning its reply; no metadata means no patch; on success a patch was sent exactly when the metadata is non-empty and the item has an id, and it was the last request, naming that item and that metadata; no drive is listed |
| Upload.UploadFile | src/sharepoint_client.py:162-181 | the resolution requests come first and a resolution error ends the call; otherwise the rest of the call's requests and its result are those of the upload to the resolved drive; drives are listed exactly when no drive id was given and the site was found; no metadata means no patch; on success a patch was sent exactly when the metadata is non-empty and the item has an id, and it was then the last request |
| Upload.UploadFileDelivers | src/sharepoint_client.py:162-181 | a successful call delivered the file right after resolving the drive: one PUT to the item path below 4 MiB, otherwise a session request and chunk requests that carry every byte exactly once |
| Upload.PatchIsLast | src/sharepoint_client.py:162-181 | when no request before the upload is a metadata update, the update is sent exactly when the upload succeeded with an id and the metadata is non-empty, and it is then the last request |
| Listing.Paginate | src/zoom_client.py:96-108 | every request goes to the one endpoint with the fixed query; the first carries the starting token; a 404 ends the listing only when tolerated |
| Listing.PaginateFollowsTokens | src/zoom_client.py:98-106 | each request after the first carries the token of the page before it, and that page was a success with a token |
| Listing.PaginateItems | src/zoom_client.py:96-108 | a finished listing gathers the items of every fetched page in order, and its last page has no token; a tolerated 404 keeps the pages before it; a failure carries the raising status |
| Listing.GroupMembers | src/zoom_client.py:92-108 | the member listing succeeds exactly when the pagination finishes, and returns its items; an error status propagates |
| Listing.UserRecordings | src/zoom_client.py:127-156 | the recordings listing succeeds when it finishes or meets a 404, and returns the items gathered; any other error status propagates |
| Listing.RecordingsRequests | src/zoom_client.py:131-142 | every recordings request carries the page size and the date window, and follows the previous page's token |
| Listing.NotFoundKeepsEarlierPages | src/zoom_client.py:150-153 | a 404 keeps the meetings of every page before it |
| Listing.Put | src/zoom_client.py:189 | dictionary assignment replaces the value of an existing key in place, and otherwise appends the key; either way the key then looks up the new value |
| Listing.PutLookup | src/zoom_client.py:189 | after assignment the key maps to the new value, every other key is unchanged, and keys stay unique |
| Listing.GroupRecordings | src/zoom_client.py:185-199 | the aggregated map has at most one entry per member listed and never holds an e-mail twice |
| Listing.GroupRecordingsMeaning | src/zoom_client.py:175-201 | the aggregated map holds each e-mail once, and under it the recordings of the last member with that e-mail whose listing returned a non-empty result; a failing member is skipped |
| Listing.GroupRecordingsNonEmpty | src/zoom_client.py:188-192 | no entry holds an empty recording list |
| Listing.GetGroupRecordings | src/zoom_client.py:175-201 | a failure of the member listing propagates; otherwise the result is the aggregation over all members |
| Tokens.GetAccessToken | src/zoom_client.py:35-57 | no request is made exactly when the cached token is non-empty and not expired; a request succeeds exactly when the status does not raise and the reply has both fields, and then caches the token with an expiry 300 seconds before its lifetime ends |
| Tokens.FirstCallRequests | src/zoom_client.py:35-36 | a fresh client always requests a token |
| Tokens.ReuseWindow | src/zoom_client.py:35-57 | a freshly obtained token is reused until its shortened expiry, and requested again from then on |
| Tokens.ShortLivedTokenNotReused | src/zoom_client.py:55 | a token whose lifetime is at most the 300-second margin is never reused |

## Left out

- HTTP, MSAL and OAuth are not modelled. Replies are supplied by the caller, and bearer headers and request bodies other than the fields listed are dropped.
- The SharePoint client's access-token cache (`src/sharepoint_client.py:44-64`) is left out. It depends only on MSAL, which is not part of this model.
- Reading and writing local files, `os.path.getsize`, `os.remove`, and the download body (`download_recording_file`) are left out. Their success or failure is the `Run.Fate` parameter. The Content-Length of a chunk is the planned chunk length, not the number of bytes actually read.
- Printing, progress bars and `time.sleep` are left out.
- Argument parsing, `load_dotenv`, the `strptime` check of the date arguments, and creating the download directory are left out.
- `isalnum` and `lower` are modelled on ASCII letters and digits only. Python's Unicode classes are larger. Whitespace for `strip()` is the set Python's `str.isspace` accepts.
- A JSON `null` is read the same as an absent key: `Naming.Meeting` and `Naming.RecordingFile` hold `None` for both. In the program, `dict.get(key, default)` returns `None` for a null value. A null "topic", "start_time" or "file_extension" then raises outside the per-file `try` (`src/main.py:179`, `:181`, `:213`) and ends the run. A null "recording_type" puts "None" into the file name (`src/main.py:204`). The model uses the default in each of these cases.
- The meeting id is modelled as the string `str(meeting_id)` renders (`Naming.Meeting.id`). How Python renders a JSON number is not modelled. `Decimal` models the rendering of the chunk numbers in the upload headers.
- `os.path.join` is modelled with "/" as the separator. Windows paths are not modelled.
- Only the JSON shape errors named in the model are modelled: a reply without "id", "uploadUrl", "value", "access_token" or "expires_in". Other malformed bodies are not modelled.
- Pagination that never ends is not modelled. A listing reads a finite page script, and running out of pages while a token remains yields `OutOfPages` or `PagesExhausted`.
- An HTTP error while acquiring the Zoom token inside a recordings listing is not modelled separately. In the source it is caught like any listing error.
- `get_group_recordings` catches every exception of a member, not only HTTP errors. The model treats any failed member listing as a member that contributes nothing, which is the same outcome.
- The recordings listing reuses one `params` dict across its requests. It continues only when the new page supplied a token, so every later request carries the token of the page before it. The model sends exactly that token and does not model the dict itself.
- Where the documentation and the code differ, the model follows the code: an unknown extension goes to the video library; a failing metadata patch fails the file; no uploaded byte count is checked; files are not de-duplicated; no request is retried.
- `create_folder` failures are swallowed by `src/main.py:238-242`. `Run.PlannedActions` still lists the `EnsureFolder` action, and its outcome does not affect the file's fate.
- Run.RunTransfers: the fates of download, upload and removal are inputs, not derived from `Upload.UploadFile`. The Graph-level operations are modelled separately, with their own contracts.
