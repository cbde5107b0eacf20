/** The two path derivations of the driver, each a single non-global
    `String.prototype.replace` with a regular expression. A non-global
    replace substitutes the leftmost match only; without the `m` flag, `$`
    anchors at the end of the whole string. Both patterns end in `$`, so a
    match always runs to the end of the path. */
module Paths {
  import opened Seqs

  const SourceExt: string := ".hcl"
  const TargetExt: string := ".js"

  predicate EndsWith(s: string, suffix: string) {
    |suffix| <= |s| && s[|s| - |suffix|..] == suffix
  }

  /** /\.hcl$/ matches `f` starting at offset `i`. */
  predicate ExtMatchAt(f: string, i: int) {
    0 <= i <= |f| && f[i..] == SourceExt
  }

  /** /\/[^\/]+$/ matches `f` starting at offset `i`: a separator followed
      by one or more characters, none of them a separator, up to the end. */
  predicate DirMatchAt(f: string, i: int) {
    0 <= i < |f| - 1 && f[i] == '/' && '/' !in f[i + 1..]
  }

  /** `hcl_file.replace(/\.hcl$/, '.js')`: the output file of a source file. */
  function OutputPath(f: string): (r: string)
    ensures forall i :: ExtMatchAt(f, i) ==> r == f[..i] + TargetExt
    ensures (forall i :: !ExtMatchAt(f, i)) ==> r == f
  {
    if EndsWith(f, SourceExt) then
      assert ExtMatchAt(f, |f| - |SourceExt|);
      f[..|f| - |SourceExt|] + TargetExt
    else
      f
  }

  /** `hcl_file.replace(/\/[^\/]+$/, '/')`: the directory handed to the code
      generator. */
  function BaseDir(f: string): (r: string)
    ensures forall i :: DirMatchAt(f, i) ==> r == f[..i] + "/"
    ensures (forall i :: !DirMatchAt(f, i)) ==> r == f
  {
    var i := LastIndexOf(f, '/');
    DirMatchIsLastSeparator(f);
    if 0 <= i < |f| - 1 then
      assert DirMatchAt(f, i);
      var r := f[..i] + "/";
      assert forall j :: DirMatchAt(f, j) ==> r == f[..j] + "/";
      r
    else
      assert forall j :: !DirMatchAt(f, j);
      f
  }

  /** A match of /\/[^\/]+$/ can only start at the last separator. */
  lemma DirMatchIsLastSeparator(f: string)
    ensures forall j :: DirMatchAt(f, j) ==> j == LastIndexOf(f, '/')
    ensures 0 <= LastIndexOf(f, '/') < |f| - 1 ==> DirMatchAt(f, LastIndexOf(f, '/'))
  {
    forall j | DirMatchAt(f, j) ensures j == LastIndexOf(f, '/') {
      LastIndexOfUnique(f, '/', j);
    }
  }

  /** At most one offset matches each pattern, so "leftmost match" is "the
      match". */
  lemma MatchesUnique(f: string, i: int, j: int)
    ensures ExtMatchAt(f, i) && ExtMatchAt(f, j) ==> i == j
    ensures DirMatchAt(f, i) && DirMatchAt(f, j) ==> i == j
  {
    if DirMatchAt(f, i) && DirMatchAt(f, j) {
      LastIndexOfUnique(f, '/', i);
      LastIndexOfUnique(f, '/', j);
    }
  }

  /** A source file `stem.hcl` is written to `stem.js`. */
  lemma OutputPathSwapsExtension(stem: string)
    ensures OutputPath(stem + SourceExt) == stem + TargetExt
  {
    assert ExtMatchAt(stem + SourceExt, |stem|);
    assert (stem + SourceExt)[..|stem|] == stem;
  }

  /** The output path differs from the input exactly when the input ends in
      `.hcl`: a source file is never overwritten by its own output, and any
      other path is passed through untouched. */
  lemma OutputPathChanges(f: string)
    ensures OutputPath(f) != f <==> EndsWith(f, SourceExt)
  {
    if EndsWith(f, SourceExt) {
      assert ExtMatchAt(f, |f| - |SourceExt|);
      assert |OutputPath(f)| == |f| - 1;
    }
  }

  /** Derived paths end in a separator exactly when the input contains one. */
  lemma BaseDirEndsInSeparator(f: string)
    ensures EndsWith(BaseDir(f), "/") <==> '/' in f
  {
    var i := LastIndexOf(f, '/');
    if 0 <= i < |f| - 1 {
      assert DirMatchAt(f, i);
      assert BaseDir(f) == f[..i] + "/";
    } else if i == |f| - 1 && i >= 0 {
      assert f[|f| - 1..] == "/";
    }
  }

  /** The base directory is a prefix of the path, and what it drops is
      free of separators: only the last path component goes. */
  lemma BaseDirDropsLastComponent(f: string)
    ensures BaseDir(f) <= f
    ensures '/' !in f[|BaseDir(f)|..]
  {
    var i := LastIndexOf(f, '/');
    DirMatchIsLastSeparator(f);
    if 0 <= i < |f| - 1 {
      var b := f[..i] + "/";
      assert BaseDir(f) == b;
      assert b == f[..i + 1];
      assert f[|b|..] == f[i + 1..];
    } else {
      assert BaseDir(f) == f;
      assert f[|f|..] == [];
    }
  }

  /** Deriving the base directory twice changes nothing more. */
  lemma BaseDirIdempotent(f: string)
    ensures BaseDir(BaseDir(f)) == BaseDir(f)
  {
    var b := BaseDir(f);
    BaseDirEndsInSeparator(f);
    DirMatchIsLastSeparator(b);
  }

  /** A separator that is the last one of `stem` still starts the match
      after an extension without separators is appended. */
  lemma DirMatchSurvivesSuffix(stem: string, ext: string, i: int)
    requires 0 <= i < |stem| && stem[i] == '/' && '/' !in stem[i + 1..]
    requires |ext| > 0 && '/' !in ext
    ensures DirMatchAt(stem + ext, i)
    ensures (stem + ext)[..i] == stem[..i]
  {
    var g := stem + ext;
    assert g[i + 1..] == stem[i + 1..] + ext;
  }

  /** When the source path names a directory, the output file lands in the
      same directory the generator was told about. */
  lemma OutputPathKeepsBaseDir(f: string)
    requires EndsWith(f, SourceExt) && '/' in f[..|f| - |SourceExt|]
    ensures BaseDir(OutputPath(f)) == BaseDir(f)
  {
    var stem := f[..|f| - |SourceExt|];
    assert f == stem + SourceExt;
    OutputPathSwapsExtension(stem);
    var i := LastIndexOf(stem, '/');
    DirMatchSurvivesSuffix(stem, SourceExt, i);
    DirMatchSurvivesSuffix(stem, TargetExt, i);
  }
}
