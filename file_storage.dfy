// FileStorageService: uploads are stored in one directory under a fresh
// name that keeps the original extension; lookups and deletions accept a
// path or a URL and use only its last segment.

module FileStorage {
  import opened Common
  import opened Stores

  /** The extension store keeps: from the last '.', provided that dot is not
      the first character; otherwise none. */
  function Extension(name: string): (ext: string)
    ensures ext == [] || (LastIndexOf(name, '.') > 0 && ext == name[LastIndexOf(name, '.')..])
  {
    var dot := LastIndexOf(name, '.');
    if dot > 0 then name[dot..] else []
  }

  /** The name a file is stored under: the random UUID text followed by the
      extension of the cleaned original name (the name after
      StringUtils.cleanPath). */
  function StoredName(uuid: string, cleanName: string): string
  {
    uuid + Extension(cleanName)
  }

  /** The public path store returns. */
  function PublicPath(uuid: string, cleanName: string): string
  {
    "/uploads/" + StoredName(uuid, cleanName)
  }

  /** loadAsResource's file name: the part after the last '/', or the
      argument itself when it has none. */
  function LoadName(path: string): string
  {
    if '/' in path then AfterLast(path, '/') else path
  }

  /** deleteFile's file name.  The second branch is written in the source
      but can never be taken (see UploadsBranchUnreachable). */
  function DeleteName(path: string): string
  {
    if '/' in path then AfterLast(path, '/')
    else if Contains(path, "uploads/") then UploadsSuffix(path)
    else path
  }

  /** The part after the first "uploads/". */
  function UploadsSuffix(path: string): string
    requires Contains(path, "uploads/")
  {
    path[IndexOf(path, "uploads/") + 8..]
  }

  /** A name without "uploads/" in it contains no '/': the else-if branch of
      deleteFile is dead code. */
  lemma UploadsBranchUnreachable(path: string)
    ensures '/' !in path ==> !Contains(path, "uploads/")
    ensures DeleteName(path) == LoadName(path)
  {
    if Contains(path, "uploads/") {
      var i :| 0 <= i <= |path| && StartsWith(path[i..], "uploads/");
      assert path[i..][..8][7] == '/';
      assert path[i + 7] == '/';
    }
  }

  /** The extension is kept exactly when the last dot is past index 0; a
      name such as ".bashrc" or one without a dot gets none. */
  lemma ExtensionCases(name: string)
    ensures LastIndexOf(name, '.') > 0 ==>
              Extension(name) == name[LastIndexOf(name, '.')..]
              && Extension(name)[0] == '.'
              && '.' !in Extension(name)[1..]
    ensures LastIndexOf(name, '.') <= 0 ==> Extension(name) == []
  {
    var dot := LastIndexOf(name, '.');
    if dot > 0 {
      var ext := name[dot..];
      forall j | 0 <= j < |ext[1..]| ensures ext[1..][j] != '.' {
        assert ext[1..][j] == name[dot + 1 + j];
      }
    }
  }

  /** store copies into the one upload directory, which holds files only:
      a stored name with a '/' in it names a file in a subdirectory that
      does not exist, so the copy fails. */
  predicate Storable(uuid: string, cleanName: string)
  {
    '/' !in StoredName(uuid, cleanName)
  }

  /** A stored name holds a '/' exactly when the UUID text or the kept
      extension does; a cleaned name without '/' is storable under any
      UUID text without one. */
  lemma StorableCases(uuid: string, cleanName: string)
    ensures Storable(uuid, cleanName) <==> '/' !in uuid && '/' !in Extension(cleanName)
    ensures '/' !in uuid && '/' !in cleanName ==> Storable(uuid, cleanName)
  {
    var ext := Extension(cleanName);
    var name := StoredName(uuid, cleanName);
    assert name == uuid + ext;
    if '/' in uuid {
      var j :| 0 <= j < |uuid| && uuid[j] == '/';
      assert name[j] == '/';
    }
    if '/' in ext {
      var j :| 0 <= j < |ext| && ext[j] == '/';
      assert name[|uuid| + j] == '/';
    }
    if '/' !in uuid && '/' !in cleanName && ext != [] {
      forall j | 0 <= j < |ext| ensures ext[j] != '/' {
        assert ext[j] == cleanName[LastIndexOf(cleanName, '.') + j];
      }
    }
  }

  /** Every path store returns leads deleteFile and loadAsResource back to
      the stored name. */
  lemma StoredPathRoundTrip(uuid: string, cleanName: string, prefix: string)
    requires Storable(uuid, cleanName)
    ensures LoadName(prefix + PublicPath(uuid, cleanName)) == StoredName(uuid, cleanName)
    ensures DeleteName(prefix + PublicPath(uuid, cleanName)) == StoredName(uuid, cleanName)
  {
    var name := StoredName(uuid, cleanName);
    var path := prefix + PublicPath(uuid, cleanName);
    assert path == (prefix + "/uploads") + ['/'] + name;
    AfterLastSeparator(prefix + "/uploads", name);
    UploadsBranchUnreachable(path);
  }

  /** cleanPath keeps directory parts, so a cleaned name with a dot in a
      directory part, such as "v1.2/notes", keeps ".2/notes" as its
      extension: store refuses it. */
  lemma DottedDirectoryRefused(uuid: string)
    ensures !Storable(uuid, "v1.2/notes")
  {
    var name: string := "v1.2/notes";
    assert LastIndexOf(name, '.') == 2 by {
      assert name[2] == '.';
      assert forall j :: 2 < j < |name| ==> name[j] != '.';
    }
    assert Extension(name) == ".2/notes";
    assert StoredName(uuid, name)[|uuid| + 2] == '/';
  }

  lemma AfterLastSeparator(head: string, tail: string)
    requires '/' !in tail
    ensures AfterLast(head + ['/'] + tail, '/') == tail
  {
    var s := head + ['/'] + tail;
    var r := AfterLast(s, '/');
    assert s[|head|] == '/';
    assert forall j :: |head| < j < |s| ==> s[j] == tail[j - |head| - 1];
  }

  /** The file storage service over the upload directory.  `cleanPath` is
      Spring's StringUtils.cleanPath, which keeps null as null. */
  class FileStorageService {
    const dir: UploadDirectory
    const cleanPath: string -> string

    constructor (dir: UploadDirectory, cleanPath: string -> string)
      ensures this.dir == dir && this.cleanPath == cleanPath
    {
      this.dir := dir;
      this.cleanPath := cleanPath;
    }

    /** store: a null original name stays null through cleanPath and fails
        on the dot search; a name that is not storable fails the copy with
        nothing stored; otherwise the file is copied (replacing any file of
        that name) under a name made from the cleaned name, and its public
        path returned.  `uuid` is the text of the random UUID. */
    method Store(uuid: string, originalName: Option<string>) returns (r: Result<string, Exception>)
      modifies dir
      ensures originalName.None? ==> r == Err(NullPointer) && dir.names == old(dir.names)
      ensures originalName.Some? && !Storable(uuid, cleanPath(originalName.value)) ==>
                r == Err(Runtime) && dir.names == old(dir.names)
      ensures originalName.Some? && Storable(uuid, cleanPath(originalName.value)) ==>
                r == Ok(PublicPath(uuid, cleanPath(originalName.value)))
                && dir.names == old(dir.names) + {StoredName(uuid, cleanPath(originalName.value))}
    {
      if originalName.None? {
        return Err(NullPointer);
      }
      var name := cleanPath(originalName.value);
      var extension: string := [];
      var dotIndex := LastIndexOf(name, '.');
      if dotIndex > 0 {
        extension := name[dotIndex..];
      }
      var filename := uuid + extension;
      if '/' in filename {
        return Err(Runtime);
      }
      dir.Add(filename);
      r := Ok("/uploads/" + filename);
    }

    /** loadAsResource: the named file if it exists, otherwise a failure. */
    method LoadAsResource(path: string) returns (r: Result<string, Exception>)
      ensures r.Ok? <==> LoadName(path) in dir.names
      ensures r.Ok? ==> r.value == LoadName(path)
      ensures r.Err? ==> r.error == Runtime
    {
      var filename := path;
      if '/' in path {
        filename := path[LastIndexOf(path, '/') + 1..];
      }
      if filename in dir.names {
        r := Ok(filename);
      } else {
        r := Err(Runtime);
      }
    }

    /** deleteFile: nothing for a null or empty path or a missing file;
        otherwise the named file is removed.  It never fails. */
    method DeleteFile(path: Option<string>)
      modifies dir
      ensures path.None? || path.value == [] ==> dir.names == old(dir.names)
      ensures path.Some? && path.value != [] ==> dir.names == old(dir.names) - {DeleteName(path.value)}
    {
      if path.None? || path.value == [] {
        return;
      }
      var p := path.value;
      var filename := p;
      if '/' in p {
        filename := p[LastIndexOf(p, '/') + 1..];
      } else if Contains(p, "uploads/") {
        filename := UploadsSuffix(p);
      }
      if filename in dir.names {
        dir.Remove(filename);
      }
    }
  }
}
