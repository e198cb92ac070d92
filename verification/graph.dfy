/** The Microsoft Graph requests `src/sharepoint_client.py` issues, the parts
    of their replies it reads, and the drive-relative item path it builds.
    The network is a function from request to reply, supplied by the caller. */
module Graph {
  import opened Base
  import opened Strings
  import Chunks

  /** A drive (document library) of a site, as `GET /sites/{id}/drives` lists it. */
  datatype Drive = Drive(name: string, id: string)

  /** The requests of the client. `parent == None` is the drive root. */
  datatype Call =
    | GetSite(hostname: string, sitePath: string)
    | ListDrives(siteId: string)
    | CreateChild(driveId: string, parent: Option<string>, name: string)
    | PutContent(driveId: string, itemPath: string)
    | CreateSession(driveId: string, itemPath: string, name: string)
    | PutChunk(uploadUrl: string, headers: Chunks.ChunkHeaders)
    | PatchFields(driveId: string, itemId: string, fields: seq<(string, string)>)

  /** What the client reads from a reply: the status, and the `id`,
      `uploadUrl` and `value` (drives) members of its JSON body. */
  datatype Reply = Reply(status: int, id: Option<string>, uploadUrl: Option<string>, drives: Option<seq<Drive>>)

  /** The exceptions the client raises. */
  datatype GraphError =
    | HttpError(status: int)          // `raise_for_status`
    | MissingKey(key: string)         // a `KeyError` on the reply body
    | ValueError(message: string)     // a `ValueError`
    | NoChunkReply                    // reading the last response of a loop that never ran

  /** The result of an operation together with every request it issued, in order. */
  datatype Exchange<T> = Exchange(result: Result<T, GraphError>, calls: seq<Call>)

  // ---------------------------------------------------------------------
  // Item paths

  /** `s.replace("//", "/")`. */
  function CollapseSlashes(s: string): string {
    ReplaceAll(s, "//", "/")
  }

  /** No two slashes next to each other. */
  predicate NoDoubleSlash(s: string) {
    forall i :: 0 <= i < |s| - 1 ==> s[i] != '/' || s[i + 1] != '/'
  }

  /** No three slashes next to each other. */
  predicate NoTripleSlash(s: string) {
    forall i :: 0 <= i < |s| - 2 ==> s[i] != '/' || s[i + 1] != '/' || s[i + 2] != '/'
  }

  /** The drive-relative path of `_create_upload_session` and
      `_upload_small_file`: `folder/name` with "//" collapsed, and a leading
      slash added when missing. */
  function ItemPath(folder: string, name: string): (p: string)
    ensures |p| > 0 && p[0] == '/'
  {
    var joined := CollapseSlashes(folder + "/" + name);
    if StartsWith(joined, "/") then joined else "/" + joined
  }

  /** Collapsing keeps the first character. */
  lemma {:induction false} CollapseHead(s: string)
    requires |s| > 0
    ensures |CollapseSlashes(s)| > 0 && CollapseSlashes(s)[0] == s[0]
  {
  }

  /** Collapsing leaves a string without "//" alone. */
  lemma {:induction false} CollapseNoDouble(s: string)
    requires NoDoubleSlash(s)
    ensures CollapseSlashes(s) == s
    decreases |s|
  {
    if |s| > 0 {
      assert !("//" <= s) by {
        if |s| >= 2 { assert s[0] != '/' || s[1] != '/'; }
      }
      assert NoDoubleSlash(s[1..]) by {
        forall i | 0 <= i < |s[1..]| - 1 ensures s[1..][i] != '/' || s[1..][i + 1] != '/' {
          assert s[1..][i] == s[i + 1] && s[1..][i + 1] == s[i + 2];
        }
      }
      CollapseNoDouble(s[1..]);
      assert [s[0]] + s[1..] == s;
    }
  }

  /** Collapsing removes every "//" as long as no three slashes are adjacent. */
  lemma {:induction false} CollapseRemovesDoubles(s: string)
    requires NoTripleSlash(s)
    ensures NoDoubleSlash(CollapseSlashes(s))
    decreases |s|
  {
    if |s| > 0 {
      var r := CollapseSlashes(s);
      if "//" <= s {
        var t := s[2..];
        assert NoTripleSlash(t) by {
          forall i | 0 <= i < |t| - 2 ensures t[i] != '/' || t[i + 1] != '/' || t[i + 2] != '/' {
            assert t[i] == s[i + 2] && t[i + 1] == s[i + 3] && t[i + 2] == s[i + 4];
          }
        }
        CollapseRemovesDoubles(t);
        assert r == "/" + CollapseSlashes(t);
        if |t| > 0 {
          assert t[0] != '/' by { assert s[0] == '/' && s[1] == '/' && t[0] == s[2]; }
          CollapseHead(t);
        }
        assert forall i :: 1 <= i < |r| ==> r[i] == CollapseSlashes(t)[i - 1];
      } else {
        var t := s[1..];
        assert NoTripleSlash(t) by {
          forall i | 0 <= i < |t| - 2 ensures t[i] != '/' || t[i + 1] != '/' || t[i + 2] != '/' {
            assert t[i] == s[i + 1] && t[i + 1] == s[i + 2] && t[i + 2] == s[i + 3];
          }
        }
        CollapseRemovesDoubles(t);
        assert r == [s[0]] + CollapseSlashes(t);
        if |t| > 0 {
          CollapseHead(t);
          assert s[0] != '/' || t[0] != '/' by {
            assert |s| >= 2 && t[0] == s[1];
          }
        }
        assert forall i :: 1 <= i < |r| ==> r[i] == CollapseSlashes(t)[i - 1];
      }
    }
  }

  /** Three slashes collapse only to two: the replacement does not overlap. */
  lemma CollapseTripleExample()
    ensures CollapseSlashes("a///b") == "a//b"
  {
    assert !("//" <= "/b") by { assert "/b"[1] != "//"[1]; }
    assert ReplaceAll("b", "//", "/") == "b";
    assert ReplaceAll("/b", "//", "/") == "/b";
    assert "///b"[2..] == "/b";
    assert ReplaceAll("///b", "//", "/") == "//b";
    assert "a///b"[1..] == "///b";
  }

  /** For a folder and a name that join without a doubled slash, the item
      path is the folder, a slash and the name, rooted at "/". */
  lemma ItemPathPlain(folder: string, name: string)
    requires NoDoubleSlash(folder + "/" + name)
    ensures ItemPath(folder, name) ==
      (if folder == "" || StartsWith(folder, "/") then "" else "/") + folder + "/" + name
  {
    CollapseNoDouble(folder + "/" + name);
    if folder == "" {
      assert StartsWith(folder + "/" + name, "/");
    } else {
      assert StartsWith(folder + "/" + name, "/") <==> StartsWith(folder, "/");
    }
  }

  /** The item path is rooted, and holds no "//" unless three slashes met
      where the folder and the name were joined. */
  lemma ItemPathShape(folder: string, name: string)
    ensures |ItemPath(folder, name)| > 0 && ItemPath(folder, name)[0] == '/'
    ensures NoTripleSlash(folder + "/" + name) ==> NoDoubleSlash(ItemPath(folder, name))
  {
    if NoTripleSlash(folder + "/" + name) {
      ItemPathNoDoubleSlash(folder, name);
    }
  }

  /** An item path built from a folder and name without "///" has no "//". */
  lemma ItemPathNoDoubleSlash(folder: string, name: string)
    requires NoTripleSlash(folder + "/" + name)
    ensures NoDoubleSlash(ItemPath(folder, name))
  {
    var joined := CollapseSlashes(folder + "/" + name);
    CollapseRemovesDoubles(folder + "/" + name);
    if !StartsWith(joined, "/") {
      var p := "/" + joined;
      assert forall i :: 1 <= i < |p| ==> p[i] == joined[i - 1];
      assert |joined| > 0 ==> joined[0] != '/';
    }
  }
}
