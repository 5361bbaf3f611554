/** The default output name: the input path with `_sanitized` put before
    its extension, the extension as POSIX `os.path.splitext` finds it. */
module Paths {
  import opened Bytes

  /** The index of the last `c` in `s`, or -1 when there is none
      (`str.rfind`). */
  function LastIndex(s: string, c: char): (i: int)
    ensures -1 <= i < |s|
    ensures i >= 0 ==> s[i] == c
    ensures forall k :: i < k < |s| ==> s[k] != c
    decreases |s|
  {
    if |s| == 0 then -1
    else if s[|s| - 1] == c then |s| - 1
    else LastIndex(s[..|s| - 1], c)
  }

  /** The extension of `p` starts at `d`: the last dot, after the last
      slash, with something other than a dot before it in the last
      component (so `.bashrc` and `..` have none). */
  ghost predicate ExtensionAt(p: string, d: int)
  {
    && 0 <= d < |p| && p[d] == '.'
    && (forall k :: d < k < |p| ==> p[k] != '.' && p[k] != '/')
    && exists k :: 0 <= k < d && p[k] != '.' && (forall m :: k <= m < d ==> p[m] != '/')
  }

  /** Where the extension of `p` starts, or `|p|` when it has none. */
  ghost function Cut(p: string): (n: nat)
    ensures n <= |p|
  {
    if exists d :: ExtensionAt(p, d) then (var d :| ExtensionAt(p, d); d) else |p|
  }

  /** An extension starts at one place only: the last dot. */
  lemma ExtensionUnique(p: string, d: int, e: int)
    requires ExtensionAt(p, d) && ExtensionAt(p, e)
    ensures d == e
  {
  }

  /** `os.path.splitext` on a POSIX path: the last dot after the last
      slash opens the extension, unless only dots stand before it in the
      last component. */
  method SplitExt(p: string) returns (root: string, ext: string)
    ensures root + ext == p
    ensures root == p[..Cut(p)] && ext == p[Cut(p)..]
    ensures ext == [] || (ext[0] == '.' && '.' !in ext[1..] && '/' !in ext)
  {
    var sepIndex := LastIndex(p, '/');
    var dotIndex := LastIndex(p, '.');
    if dotIndex > sepIndex {
      var i := sepIndex + 1;
      while i < dotIndex
        invariant sepIndex + 1 <= i <= dotIndex
        invariant forall k :: sepIndex + 1 <= k < i ==> p[k] == '.'
      {
        if p[i] != '.' {
          assert ExtensionAt(p, dotIndex);
          ExtensionFound(p, dotIndex);
          root, ext := p[..dotIndex], p[dotIndex..];
          return;
        }
        i := i + 1;
      }
      NoExtension(p, sepIndex, dotIndex);
    } else {
      NoExtension(p, sepIndex, dotIndex);
    }
    root, ext := p, [];
  }

  /** Where the extension starts at `d`, the cut is there, and the
      extension holds no other dot and no slash. */
  lemma ExtensionFound(p: string, d: int)
    requires ExtensionAt(p, d)
    ensures Cut(p) == d
    ensures '.' !in p[d..][1..] && '/' !in p[d..]
  {
    var e :| ExtensionAt(p, e);
    ExtensionUnique(p, d, e);
    forall k | 0 <= k < |p[d..]| ensures p[d..][k] != '/' {
      assert p[d..][k] == p[d + k];
    }
    forall k | 0 <= k < |p[d..][1..]| ensures p[d..][1..][k] != '.' {
      assert p[d..][1..][k] == p[d + 1 + k];
    }
  }

  /** With the last dot before the last slash, or only dots between them,
      there is no extension. */
  lemma NoExtension(p: string, sepIndex: int, dotIndex: int)
    requires sepIndex == LastIndex(p, '/') && dotIndex == LastIndex(p, '.')
    requires dotIndex > sepIndex ==> forall k :: sepIndex + 1 <= k < dotIndex ==> p[k] == '.'
    ensures Cut(p) == |p|
  {
    assert !exists d :: ExtensionAt(p, d);
  }

  /** The text put before the extension. */
  const Suffix: string := "_sanitized"

  /** The path the output goes to: the one given, or the input's root,
      `_sanitized`, and the input's extension. */
  method OutputPath(input: string, output: Option<string>) returns (path: string)
    ensures output.Some? ==> path == output.value
    ensures output.None? ==> path == input[..Cut(input)] + Suffix + input[Cut(input)..]
    ensures output.None? ==> path != input
  {
    if output.Some? {
      path := output.value;
    } else {
      var root, ext := SplitExt(input);
      path := root + Suffix + ext;
      assert |path| == |input| + |Suffix|;
    }
  }
}
