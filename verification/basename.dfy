/** The image's base name: the path with its directory part removed, as the labeller computes it. */
module BaseName {

  /** `str.rfind` for one character: the last index of `ch` in `s`, or -1 when it does not occur. */
  function RFind(s: string, ch: char): (k: int)
    ensures -1 <= k < |s|
    ensures k >= 0 ==> s[k] == ch
    ensures forall i :: k < i < |s| ==> s[i] != ch
  {
    if |s| == 0 then -1
    else if s[|s| - 1] == ch then |s| - 1
    else RFind(s[..|s| - 1], ch)
  }

  /** `s` with everything through the last `sep` dropped, guarded by the truthiness of `rfind`:
      -1 (absent) is truthy and slices from 0, while an index of 0 is falsy and keeps `s`. */
  function StripThrough(s: string, sep: char): string
  {
    var k := RFind(s, sep);
    if k != 0 then s[k + 1..] else s
  }

  /** What the stripping step leaves: no separator at all when one occurs past index 0;
      otherwise the whole string, including a lone separator at index 0. */
  lemma StripThroughSpec(s: string, sep: char)
    ensures var t := StripThrough(s, sep);
      |t| <= |s| && t == s[|s| - |t|..]
      && ((exists i :: 0 < i < |s| && s[i] == sep) ==>
            (forall i :: 0 <= i < |t| ==> t[i] != sep) && |t| < |s| && s[|s| - |t| - 1] == sep)
      && ((forall i :: 0 < i < |s| ==> s[i] != sep) ==> t == s)
  {
    var k := RFind(s, sep);
    var t := StripThrough(s, sep);
    if k > 0 {
      assert forall i :: 0 <= i < |t| ==> t[i] == s[k + 1 + i];
    }
  }

  /** The base name of an image path: strip through the last '/', then through the last '\'. */
  function BaseName(path: string): string
  {
    StripThrough(StripThrough(path, '/'), '\\')
  }

  /** The base name is a suffix of the path, and neither separator occurs in it past index 0. */
  lemma BaseNameSpec(path: string)
    ensures var b := BaseName(path);
      |b| <= |path| && b == path[|path| - |b|..]
      && forall i :: 0 < i < |b| ==> b[i] != '/' && b[i] != '\\'
  {
    var t := StripThrough(path, '/');
    var b := StripThrough(t, '\\');
    StripClears(path, '/');
    StripClears(t, '\\');
    assert t == path[|path| - |t|..];
    assert b == t[|t| - |b|..];
    assert path[|path| - |b|..] == t[|t| - |b|..];
    forall i | 0 < i < |b|
      ensures b[i] != '/'
    {
      assert b[i] == t[|t| - |b| + i];
    }
  }

  /** One stripping step returns a suffix with no separator past index 0. */
  lemma StripClears(s: string, sep: char)
    ensures var t := StripThrough(s, sep);
      |t| <= |s| && t == s[|s| - |t|..] && forall i :: 0 < i < |t| ==> t[i] != sep
  {
    var k := RFind(s, sep);
    var t := StripThrough(s, sep);
    if k != 0 {
      assert forall i :: 0 <= i < |t| ==> t[i] == s[k + 1 + i];
    }
  }

  /** A path whose only separator is its first character keeps it: `rfind` gives 0, which is falsy. */
  lemma LeadingSeparatorKept(path: string)
    requires |path| > 0 && path[0] == '/'
    requires forall i :: 0 < i < |path| ==> path[i] != '/' && path[i] != '\\'
    ensures BaseName(path) == path
  {
    StripThroughSpec(path, '/');
    StripThroughSpec(path, '\\');
  }

  /** The same quirk can surface after the first step: a backslash right after the last slash survives. */
  lemma BackslashAfterSlashKept()
    ensures BaseName("dir/\\burn.jpg") == "\\burn.jpg"
  {
    var p := "dir/\\burn.jpg";
    StripAfter(p, '/', 3);
    assert p[4..] == "\\burn.jpg";
    StripLeading("\\burn.jpg", '\\');
  }

  /** An ordinary forward-slash path loses its directory part. */
  lemma SlashPathStripped()
    ensures BaseName("unlabeled/burn.jpg") == "burn.jpg"
  {
    var q := "unlabeled/burn.jpg";
    StripAfter(q, '/', 9);
    assert q[10..] == "burn.jpg";
    StripAbsent("burn.jpg", '\\');
  }

  /** An ordinary backslash path loses its directory part. */
  lemma BackslashPathStripped()
    ensures BaseName("C:\\images\\burn.jpg") == "burn.jpg"
  {
    var w := "C:\\images\\burn.jpg";
    StripAbsent(w, '/');
    StripAfter(w, '\\', 9);
    assert w[10..] == "burn.jpg";
  }

  /** Stripping a string without the separator leaves it alone. */
  lemma StripAbsent(s: string, sep: char)
    requires forall i :: 0 <= i < |s| ==> s[i] != sep
    ensures StripThrough(s, sep) == s
  {
    RFindAbsent(s, sep);
  }

  /** Stripping through a last separator past index 0 keeps what follows it. */
  lemma StripAfter(s: string, sep: char, k: nat)
    requires 0 < k < |s| && s[k] == sep
    requires forall i :: k < i < |s| ==> s[i] != sep
    ensures StripThrough(s, sep) == s[k + 1..]
  {
    RFindIsLast(s, sep, k);
  }

  /** A string whose only separator is its first character is kept whole. */
  lemma StripLeading(s: string, sep: char)
    requires |s| > 0 && s[0] == sep
    requires forall i :: 0 < i < |s| ==> s[i] != sep
    ensures StripThrough(s, sep) == s
  {
    RFindIsLast(s, sep, 0);
  }

  /** `rfind` returns the index of the last occurrence. */
  lemma RFindIsLast(s: string, ch: char, k: nat)
    requires k < |s| && s[k] == ch
    requires forall i :: k < i < |s| ==> s[i] != ch
    ensures RFind(s, ch) == k
  {
  }

  /** `rfind` returns -1 when the character does not occur. */
  lemma RFindAbsent(s: string, ch: char)
    requires forall i :: 0 <= i < |s| ==> s[i] != ch
    ensures RFind(s, ch) == -1
  {
  }
}
