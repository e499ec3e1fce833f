/**
 * The swap protocol: three files per module path `p` — the active module
 * `p`, the pristine backup `p.bytes` and the staged patched output `p.copy` —
 * and the delete/move sequences that enable and disable the patch.
 *
 * The file system is a map from path to contents. Loading, patching and
 * writing a module is one deterministic function from the active file's
 * contents to the staged file's contents, or to nothing when any lookup or
 * patch step fails.
 */
module FileSwap {
  import opened Lookup

  type Bytes = seq<bv8>

  type Files = map<string, Bytes>

  function BackupPath(p: string): (r: string)
    ensures r != p
  {
    p + ".bytes"
  }

  function StagedPath(p: string): (r: string)
    ensures r != p && r != BackupPath(p)
  {
    p + ".copy"
  }

  /** The file system, changed one call at a time. */
  class FileSystem {
    var files: Files

    constructor (files: Files)
      ensures this.files == files
    {
      this.files := files;
    }

    /** `File.Exists`: whether a file is present at `path`. */
    predicate Exists(path: string): (r: bool)
      reads this
      ensures r <==> path in files
    {
      path in files
    }

    /** `File.Delete`: removing a missing file is not an error. */
    method Delete(path: string)
      modifies this
      ensures files == old(files) - {path}
    {
      files := files - {path};
    }

    /** `File.Move`: fails, changing nothing, if the source is missing or the target exists. */
    method Move(source: string, target: string) returns (ok: bool)
      modifies this
      ensures ok == (source in old(files) && target !in old(files))
      ensures ok ==> files == (old(files) - {source})[target := old(files)[source]]
      ensures !ok ==> files == old(files)
    {
      ok := source in files && target !in files;
      if ok {
        files := (files - {source})[target := files[source]];
      }
    }

    /** Writing a whole file, replacing any previous contents. */
    method Write(path: string, contents: Bytes)
      modifies this
      ensures files == old(files)[path := contents]
    {
      files := files[path := contents];
    }
  }

  /** `q` is held alike (present with the same contents, or absent) by `f` and `g`. */
  predicate SameAt(f: Files, g: Files, q: string)
  {
    (q in f <==> q in g) && (q in f ==> f[q] == g[q])
  }

  /** The specification of `PrepareFile`: a backup, when there is one, replaces the active file. */
  function Prepared(f: Files, p: string): (r: Files)
    ensures BackupPath(p) !in r
    ensures BackupPath(p) in f ==> p in r && r[p] == f[BackupPath(p)]
    ensures BackupPath(p) !in f ==> r == f
    ensures forall q :: q != p && q != BackupPath(p) ==> SameAt(r, f, q)
  {
    if BackupPath(p) in f then (f - {p, BackupPath(p)})[p := f[BackupPath(p)]] else f
  }

  /**
   * The engine's `PrepareFile`. When the backup exists, an existing active
   * file is deleted and the backup moved over it: a possibly patched active
   * file is always replaced by the pristine one.
   */
  method PrepareFile(fs: FileSystem, p: string)
    modifies fs
    ensures fs.files == Prepared(old(fs.files), p)
  {
    var bytePath := BackupPath(p);
    if !fs.Exists(bytePath) {
      return;
    }
    if fs.Exists(p) {
      fs.Delete(p);
    }
    var moved := fs.Move(bytePath, p);
    assert moved;
  }

  /**
   * The specification of `ExchangeFile`. The stale backup is deleted first;
   * if the active file is missing nothing else happens, and if the staged
   * file is missing the active file is left as the backup with no active file.
   */
  function Exchanged(f: Files, p: string): (r: Files)
    ensures p in f && StagedPath(p) in f ==>
      && BackupPath(p) in r && r[BackupPath(p)] == f[p]
      && p in r && r[p] == f[StagedPath(p)]
      && StagedPath(p) !in r
    ensures p !in f ==> r == f - {BackupPath(p)}
    ensures p in f && StagedPath(p) !in f ==>
      p !in r && BackupPath(p) in r && r[BackupPath(p)] == f[p] && StagedPath(p) !in r
    ensures forall q :: q != p && q != BackupPath(p) && q != StagedPath(p) ==> SameAt(r, f, q)
  {
    var f1 := f - {BackupPath(p)};
    if p !in f1 then f1
    else
      var f2 := (f1 - {p})[BackupPath(p) := f1[p]];
      if StagedPath(p) !in f2 then f2
      else (f2 - {StagedPath(p)})[p := f2[StagedPath(p)]]
  }

  /** The engine's `ExchangeFile`; `ok` is false where a move throws. */
  method ExchangeFile(fs: FileSystem, p: string) returns (ok: bool)
    modifies fs
    ensures ok == (p in old(fs.files) && StagedPath(p) in old(fs.files))
    ensures fs.files == Exchanged(old(fs.files), p)
  {
    var byteFileName := BackupPath(p);
    if fs.Exists(byteFileName) {
      fs.Delete(byteFileName);
    }
    var moved := fs.Move(p, byteFileName);
    if !moved {
      return false;
    }
    ok := fs.Move(StagedPath(p), p);
  }

  /** The module that a patch run starts from: the backup if there is one, else the active file. */
  function Pristine(f: Files, p: string): Option<Bytes>
  {
    if BackupPath(p) in f then Some(f[BackupPath(p)])
    else if p in f then Some(f[p])
    else None
  }

  /** The specification of `Enable`: prepare, patch into the staged file, exchange. */
  function Enabled(f: Files, p: string, patch: Bytes -> Option<Bytes>): (r: Files)
    ensures Pristine(f, p).Some? && patch(Pristine(f, p).value).Some? ==>
      && p in r && r[p] == patch(Pristine(f, p).value).value
      && BackupPath(p) in r && r[BackupPath(p)] == Pristine(f, p).value
      && StagedPath(p) !in r
    ensures Pristine(f, p).None? || patch(Pristine(f, p).value).None? ==> r == Prepared(f, p)
  {
    var f1 := Prepared(f, p);
    if p !in f1 then f1
    else match patch(f1[p])
      case None => f1
      case Some(staged) => Exchanged(f1[StagedPath(p) := staged], p)
  }

  /**
   * The engine's `Enable` for one path: `PrepareFile`, load and patch the
   * active file and write the result to the staged path, then
   * `ExchangeFile`. A missing active file or a failed patch ends the run
   * after `PrepareFile`, before anything is written.
   */
  method Enable(fs: FileSystem, p: string, patch: Bytes -> Option<Bytes>) returns (ok: bool)
    modifies fs
    ensures ok <==> Pristine(old(fs.files), p).Some? && patch(Pristine(old(fs.files), p).value).Some?
    ensures fs.files == Enabled(old(fs.files), p, patch)
  {
    PrepareFile(fs, p);
    if !fs.Exists(p) {
      return false;
    }
    var staged := patch(fs.files[p]);
    if staged.None? {
      return false;
    }
    fs.Write(StagedPath(p), staged.value);
    ok := ExchangeFile(fs, p);
  }

  /** The engine's `Disable` for one path: `PrepareFile` alone. */
  method Disable(fs: FileSystem, p: string)
    modifies fs
    ensures fs.files == Prepared(old(fs.files), p)
  {
    PrepareFile(fs, p);
  }

  /** Preparing twice is preparing once; so disabling twice is disabling once. */
  lemma PrepareIdempotent(f: Files, p: string)
    ensures Prepared(Prepared(f, p), p) == Prepared(f, p)
  {
  }

  /**
   * Disable after Enable restores the pristine module at `p`, leaves no
   * backup, and agrees everywhere but the staged path with Disable alone.
   */
  lemma DisableAfterEnable(f: Files, p: string, patch: Bytes -> Option<Bytes>)
    ensures var r := Prepared(Enabled(f, p, patch), p);
      && BackupPath(p) !in r
      && (p in r <==> Pristine(f, p).Some?)
      && (p in r ==> r[p] == Pristine(f, p).value)
      && r - {StagedPath(p)} == Prepared(f, p) - {StagedPath(p)}
  {
    var e := Enabled(f, p, patch);
    var r := Prepared(e, p);
    var d := Prepared(f, p);
    if Pristine(f, p).Some? && patch(Pristine(f, p).value).Some? {
      forall q ensures SameAt(r - {StagedPath(p)}, d - {StagedPath(p)}, q) {
        if q != p && q != BackupPath(p) && q != StagedPath(p) {
          assert SameAt(r, e, q) && SameAt(d, f, q);
          assert SameAt(e, Prepared(f, p), q);
        }
      }
      MapsAgree(r - {StagedPath(p)}, d - {StagedPath(p)});
    }
  }

  /** Two maps that hold every key alike are equal. */
  lemma MapsAgree(f: Files, g: Files)
    requires forall q :: SameAt(f, g, q)
    ensures f == g
  {
    assert f.Keys == g.Keys by {
      forall q | q in f ensures q in g { assert SameAt(f, g, q); }
      forall q | q in g ensures q in f { assert SameAt(f, g, q); }
    }
    forall q | q in f ensures f[q] == g[q] { assert SameAt(f, g, q); }
  }

  /** Enabling twice gives the same files as enabling once. */
  lemma EnableIdempotent(f: Files, p: string, patch: Bytes -> Option<Bytes>)
    ensures Enabled(Enabled(f, p, patch), p, patch) == Enabled(f, p, patch)
  {
    var e := Enabled(f, p, patch);
    var e2 := Enabled(e, p, patch);
    assert Pristine(e, p) == Pristine(f, p);
    if Pristine(f, p).Some? && patch(Pristine(f, p).value).Some? {
      forall q ensures SameAt(e2, e, q) {
        if q != p && q != BackupPath(p) && q != StagedPath(p) {
          assert SameAt(e2, Prepared(e, p), q) && SameAt(Prepared(e, p), e, q);
        }
      }
      MapsAgree(e2, e);
    }
  }
}
