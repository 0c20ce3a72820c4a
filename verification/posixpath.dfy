/** Python's `os.path.splitext` on a POSIX host: the extension is the part
    from the last `.` of the last path component, unless every character of
    that component before the dot is itself a dot (hidden files such as
    `.flac` have no extension). */
module PosixPath {

  const Sep: char := '/'
  const ExtSep: char := '.'

  /** The two halves returned by `splitext`. */
  datatype Split = Split(root: string, ext: string)

  /** `str.rfind` for one character: the last index holding `c`, or -1. */
  function RFind(s: string, c: char): (i: int)
    ensures -1 <= i < |s|
    ensures 0 <= i ==> s[i] == c
    ensures forall k :: i < k < |s| ==> s[k] != c
  {
    LastBefore(s, c, |s|)
  }

  /** The last index below `n` holding `c`, or -1, scanning backwards. */
  function LastBefore(s: string, c: char, n: nat): (i: int)
    requires n <= |s|
    ensures -1 <= i < n
    ensures 0 <= i ==> s[i] == c
    ensures forall k :: i < k < n ==> s[k] != c
    decreases n
  {
    if n == 0 then -1
    else if s[n - 1] == c then n - 1
    else LastBefore(s, c, n - 1)
  }

  /** Every character is a dot (vacuously true of the empty string). */
  predicate AllDots(s: string) {
    forall k :: 0 <= k < |s| ==> s[k] == ExtSep
  }

  /** The last path component. */
  function BaseName(p: string): string {
    p[RFind(p, Sep) + 1..]
  }

  /** `os.path.splitext(p)`, following CPython's `genericpath._splitext`
      with separator `/` and no alternative separator. */
  function SplitExt(p: string): Split {
    var sepIndex := RFind(p, Sep);
    var dotIndex := RFind(p, ExtSep);
    if dotIndex > sepIndex && !AllDots(p[sepIndex + 1..dotIndex]) then
      Split(p[..dotIndex], p[dotIndex..])
    else
      Split(p, "")
  }

  /** Every dot of the last component is part of its run of leading dots. */
  ghost predicate NoExtension(p: string) {
    var b := BaseName(p);
    forall k :: 0 <= k < |b| && b[k] == ExtSep ==> AllDots(b[..k])
  }

  /** The documented meaning of `splitext`: the halves concatenate to the
      path; a non-empty extension starts with the only dot it contains, has
      no separator, and follows a last component that is not all dots; an
      empty extension means the last component has no dot past its leading
      dots. */
  ghost predicate IsSplitOf(p: string, s: Split) {
    && s.root + s.ext == p
    && (s.ext == [] ==> NoExtension(p))
    && (s.ext != [] ==>
          && s.ext[0] == ExtSep
          && Sep !in s.ext
          && ExtSep !in s.ext[1..]
          && !AllDots(BaseName(s.root)))
  }

  /** No index at or after `from` holds `c`. */
  predicate AbsentFrom(s: string, from: nat, c: char) {
    forall k :: from <= k < |s| ==> s[k] != c
  }

  lemma AbsentFromSlice(s: string, from: nat, c: char)
    requires from <= |s|
    ensures AbsentFrom(s, from, c) <==> c !in s[from..]
  {
    if AbsentFrom(s, from, c) {
      forall k | 0 <= k < |s[from..]| ensures s[from..][k] != c {
        assert s[from..][k] == s[from + k];
      }
    } else {
      var k :| from <= k < |s| && s[k] == c;
      assert s[from..][k - from] == c;
    }
  }

  /** Cutting off a tail that does not contain `c` does not move the last `c`. */
  lemma RFindPrefix(s: string, n: nat, c: char)
    requires n <= |s|
    requires AbsentFrom(s, n, c)
    ensures RFind(s[..n], c) == RFind(s, c)
  {
    var j := RFind(s[..n], c);
    if 0 <= j {
      assert s[j] == c;
    }
  }

  /** The extension `SplitExt` finds starts at the last dot, past the last
      separator, after a non-dot character of the last component. */
  lemma SplitExtSoundSplit(p: string)
    requires RFind(p, ExtSep) > RFind(p, Sep)
    requires !AllDots(p[RFind(p, Sep) + 1..RFind(p, ExtSep)])
    ensures IsSplitOf(p, SplitExt(p))
  {
    var sepIndex := RFind(p, Sep);
    var dotIndex := RFind(p, ExtSep);
    var s := SplitExt(p);
    assert s == Split(p[..dotIndex], p[dotIndex..]);
    AbsentFromSlice(p, dotIndex, Sep);
    AbsentFromSlice(p, dotIndex + 1, ExtSep);
    assert s.ext[1..] == p[dotIndex + 1..];
    RFindPrefix(p, dotIndex, Sep);
    assert BaseName(s.root) == p[sepIndex + 1..dotIndex];
  }

  /** When `SplitExt` finds no extension, every dot of the last component
      is a leading dot. */
  lemma SplitExtSoundNone(p: string)
    requires RFind(p, ExtSep) <= RFind(p, Sep) || AllDots(p[RFind(p, Sep) + 1..RFind(p, ExtSep)])
    ensures NoExtension(p)
  {
    var sepIndex := RFind(p, Sep);
    var dotIndex := RFind(p, ExtSep);
    OnlyLeadingDots(p, sepIndex, dotIndex);
  }

  /** The index form of `SplitExtSoundNone`: `s` is the last separator, `d`
      the last dot, and no non-dot lies between them. */
  lemma OnlyLeadingDots(p: string, s: int, d: int)
    requires -1 <= s < |p| && -1 <= d < |p|
    requires forall k :: d < k < |p| ==> p[k] != ExtSep
    requires d <= s || AllDots(p[s + 1..d])
    ensures var b := p[s + 1..];
      forall k :: 0 <= k < |b| && b[k] == ExtSep ==> AllDots(b[..k])
  {
    var b := p[s + 1..];
    forall k | 0 <= k < |b| && b[k] == ExtSep
      ensures AllDots(b[..k])
    {
      assert p[s + 1 + k] == ExtSep;
      assert s + 1 + k <= d;
      forall i | 0 <= i < k ensures b[..k][i] == ExtSep {
        assert b[..k][i] == p[s + 1..d][i];
      }
    }
  }

  /** `SplitExt` meets the documented meaning. */
  lemma SplitExtSound(p: string)
    ensures IsSplitOf(p, SplitExt(p))
  {
    if RFind(p, ExtSep) > RFind(p, Sep) && !AllDots(p[RFind(p, Sep) + 1..RFind(p, ExtSep)]) {
      SplitExtSoundSplit(p);
    } else {
      SplitExtSoundNone(p);
    }
  }

  /** Any split meeting the documented meaning is the one `SplitExt`
      returns, so `IsSplitOf` is an independent definition of `splitext`. */
  lemma SplitExtUnique(p: string, s: Split)
    requires IsSplitOf(p, s)
    ensures s == SplitExt(p)
  {
    if s.ext == [] {
      SplitExtUniqueNone(p, s);
    } else {
      SplitExtUniqueSplit(p, s);
    }
  }

  lemma SplitExtUniqueNone(p: string, s: Split)
    requires IsSplitOf(p, s) && s.ext == []
    ensures s == SplitExt(p)
  {
    var sepIndex := RFind(p, Sep);
    var dotIndex := RFind(p, ExtSep);
    assert s.root == p;
    if dotIndex > sepIndex {
      var b := BaseName(p);
      assert b == p[sepIndex + 1..];
      assert forall k :: 0 <= k < |b| && b[k] == ExtSep ==> AllDots(b[..k]);
      LastDotIsLeading(p, sepIndex, dotIndex);
    }
  }

  /** The index form of `SplitExtUniqueNone`: if every dot of the component
      after `s` is a leading dot, the dot at `d` is preceded only by dots. */
  lemma LastDotIsLeading(p: string, s: int, d: int)
    requires -1 <= s < d < |p| && p[d] == ExtSep
    requires var b := p[s + 1..];
      forall k :: 0 <= k < |b| && b[k] == ExtSep ==> AllDots(b[..k])
    ensures AllDots(p[s + 1..d])
  {
    var b := p[s + 1..];
    var k := d - s - 1;
    assert b[k] == ExtSep;
    assert b[..k] == p[s + 1..d];
  }

  lemma SplitExtUniqueSplit(p: string, s: Split)
    requires IsSplitOf(p, s) && s.ext != []
    ensures s == SplitExt(p)
  {
    var d := |s.root|;
    assert p[d..] == s.ext;
    assert s.root == p[..d];
    AbsentFromSlice(p, d, Sep);
    AbsentFromSlice(p, d + 1, ExtSep);
    assert s.ext[1..] == p[d + 1..];
    assert RFind(p, ExtSep) == d;
    RFindPrefix(p, d, Sep);
    assert BaseName(s.root) == p[RFind(p, Sep) + 1..d];
  }
}
