/** String primitives shared by the normaliser and the extractor: the
    whitespace class of JavaScript regular expressions and `String.prototype.trim`,
    literal substring search, and trimming. Strings are `seq<char>`. */
module Text {
  import opened Wrappers

  /** The ECMAScript WhiteSpace and LineTerminator characters. JavaScript's `\s`
      class and `trim` both use exactly this set. */
  predicate IsSpace(c: char) {
    var n := c as int;
    n == 0x09 || n == 0x0A || n == 0x0B || n == 0x0C || n == 0x0D || n == 0x20
    || n == 0xA0 || n == 0x1680 || (0x2000 <= n <= 0x200A)
    || n == 0x2028 || n == 0x2029 || n == 0x202F || n == 0x205F
    || n == 0x3000 || n == 0xFEFF
  }

  /** The characters a regular-expression `.` refuses to match. */
  predicate IsLineTerminator(c: char) {
    c == '\n' || c == '\r' || c as int == 0x2028 || c as int == 0x2029
  }

  /** `pat` occurs in `s` starting at index `i`. */
  predicate OccursAt(s: string, pat: string, i: int) {
    0 <= i <= |s| && pat <= s[i..]
  }

  /** `s.includes(pat)`. */
  predicate Contains(s: string, pat: string) {
    exists i | 0 <= i <= |s| :: OccursAt(s, pat, i)
  }

  /** `i` is the leftmost index at which `pat` occurs in `s`. */
  predicate FirstAt(s: string, pat: string, i: int) {
    OccursAt(s, pat, i) && forall j :: 0 <= j < i ==> !OccursAt(s, pat, j)
  }

  /** `r` sits inside `s` at offset `i`. */
  predicate InfixAt(r: string, s: string, i: int) {
    0 <= i && i + |r| <= |s| && r == s[i..i + |r|]
  }

  predicate IsInfix(r: string, s: string) {
    exists i | 0 <= i <= |s| :: InfixAt(r, s, i)
  }

  lemma OccursAtShift(s: string, pat: string, j: int)
    requires |s| > 0 && 0 <= j
    ensures OccursAt(s[1..], pat, j) <==> OccursAt(s, pat, j + 1)
  {
    if 0 <= j <= |s| - 1 {
      assert s[1..][j..] == s[j + 1..];
    }
  }

  /** Leftmost occurrence of `pat` in `s` (`s.indexOf(pat)`, with `None` for -1). */
  function Find(s: string, pat: string): (r: Option<nat>)
    ensures r.Some? <==> Contains(s, pat)
    ensures r.Some? ==> FirstAt(s, pat, r.value)
    decreases |s|
  {
    if pat <= s then
      assert OccursAt(s, pat, 0);
      Some(0)
    else if |s| == 0 then
      assert forall j :: !OccursAt(s, pat, j);
      None
    else
      match Find(s[1..], pat)
      case None =>
        assert forall j :: !OccursAt(s, pat, j) by {
          forall j | OccursAt(s, pat, j) ensures false {
            assert j > 0;
            OccursAtShift(s, pat, j - 1);
          }
        }
        None
      case Some(k) =>
        OccursAtShift(s, pat, k);
        assert forall j :: 0 <= j < k + 1 ==> !OccursAt(s, pat, j) by {
          forall j | 0 <= j < k + 1 && OccursAt(s, pat, j) ensures false {
            assert j > 0;
            OccursAtShift(s, pat, j - 1);
          }
        }
        Some(k + 1)
  }

  /** Index of the leftmost occurrence of `pat`, or `|s|` when there is none:
      where a field that runs "to the next `pat` or the end" stops. */
  function FindOrEnd(s: string, pat: string): (k: nat)
    ensures k <= |s|
    ensures forall j :: 0 <= j < k ==> !OccursAt(s, pat, j)
    ensures k == |s| || OccursAt(s, pat, k)
  {
    match Find(s, pat)
    case Some(k) => k
    case None => |s|
  }

  /** Any occurrence inside an infix is an occurrence in the whole string. */
  lemma InfixOccurrence(r: string, s: string, i: int, pat: string, j: int)
    requires InfixAt(r, s, i)
    requires OccursAt(r, pat, j)
    ensures OccursAt(s, pat, i + j)
  {
    assert r[j..] == s[i + j..i + |r|];
    assert s[i + j..][..|r| - j] == r[j..];
  }

  lemma InfixKeepsAbsence(r: string, s: string, pat: string)
    requires IsInfix(r, s)
    requires !Contains(s, pat)
    ensures !Contains(r, pat)
  {
    var i :| InfixAt(r, s, i);
    if j :| OccursAt(r, pat, j) {
      InfixOccurrence(r, s, i, pat, j);
    }
  }

  lemma InfixChars(r: string, s: string)
    requires IsInfix(r, s)
    ensures forall c :: c in r ==> c in s
  {
    var i :| 0 <= i <= |s| && InfixAt(r, s, i);
    assert 0 <= i && i + |r| <= |s|;
    forall c | c in r ensures c in s {
      var k :| 0 <= k < |r| && r[k] == c;
      assert r[k] == s[i + k];
    }
  }

  /** `trimStart`: drops the leading whitespace run. */
  function TrimStart(s: string): (r: string)
    ensures |r| <= |s| && r == s[|s| - |r|..]
    ensures forall k :: 0 <= k < |s| - |r| ==> IsSpace(s[k])
    ensures |r| > 0 ==> !IsSpace(r[0])
    ensures |r| == 0 <==> forall k :: 0 <= k < |s| ==> IsSpace(s[k])
  {
    if |s| > 0 && IsSpace(s[0]) then TrimStart(s[1..]) else s
  }

  /** `trimEnd`: drops the trailing whitespace run. */
  function TrimEnd(s: string): (r: string)
    ensures r <= s
    ensures forall k :: |r| <= k < |s| ==> IsSpace(s[k])
    ensures |r| > 0 ==> !IsSpace(r[|r| - 1])
    ensures |r| == 0 <==> forall k :: 0 <= k < |s| ==> IsSpace(s[k])
  {
    if |s| > 0 && IsSpace(s[|s| - 1]) then TrimEnd(s[..|s| - 1]) else s
  }

  /** No whitespace at either end. */
  predicate IsTrimmed(s: string) {
    |s| > 0 ==> !IsSpace(s[0]) && !IsSpace(s[|s| - 1])
  }

  /** `r` sits in `s` at offset `i` with only `p` characters before and after it. */
  predicate RunAround(r: string, s: string, i: int, p: char -> bool) {
    && InfixAt(r, s, i)
    && (forall k :: 0 <= k < i ==> p(s[k]))
    && (forall k :: i + |r| <= k < |s| ==> p(s[k]))
  }

  /** `r` sits in `s` at offset `i` with nothing but whitespace before and after it. */
  predicate SpaceAround(r: string, s: string, i: int) {
    RunAround(r, s, i, IsSpace)
  }

  /** `String.prototype.trim`. */
  function Trim(s: string): (r: string)
    ensures IsTrimmed(r)
    ensures IsInfix(r, s)
    ensures |r| == 0 <==> forall k :: 0 <= k < |s| ==> IsSpace(s[k])
    ensures forall c :: c in r ==> c in s
  {
    TrimBothEnds(s);
    var r := TrimEnd(TrimStart(s));
    InfixChars(r, s);
    r
  }

  lemma TrimBothEnds(s: string)
    ensures var t := TrimStart(s); var r := TrimEnd(t);
      && IsTrimmed(r)
      && InfixAt(r, s, |s| - |t|)
      && (|r| == 0 <==> forall k :: 0 <= k < |s| ==> IsSpace(s[k]))
  {
    var t := TrimStart(s);
    var r := TrimEnd(t);
    assert IsTrimmed(r) by {
      TrimEndIsTrimmed(t);
    }
    assert InfixAt(r, s, |s| - |t|) by {
      PrefixOfSuffix(s, t, r);
    }
    assert |r| == 0 <==> forall k :: 0 <= k < |s| ==> IsSpace(s[k]) by {
      TrimEndEmpty(s, t);
    }
  }

  /** What `trim` drops from either end is whitespace: the result sits in the
      input with nothing but whitespace before and after it. */
  lemma TrimDropsOnlySpace(s: string)
    ensures exists i | 0 <= i <= |s| :: SpaceAround(Trim(s), s, i)
  {
    var t := TrimStart(s);
    var r := TrimEnd(t);
    InsideRun(s, t, r, IsSpace);
    assert Trim(s) == r;
    assert SpaceAround(Trim(s), s, |s| - |t|);
  }

  /** A prefix `r` of a suffix `t` of `s`, with only `p` characters before `t`
      and after `r`, sits in `s` with only `p` characters around it. */
  lemma InsideRun(s: string, t: string, r: string, p: char -> bool)
    requires |t| <= |s| && t == s[|s| - |t|..] && r <= t
    requires forall k :: 0 <= k < |s| - |t| ==> p(s[k])
    requires forall k :: |r| <= k < |t| ==> p(t[k])
    ensures RunAround(r, s, |s| - |t|, p)
  {
    PrefixOfSuffix(s, t, r);
    RunAfterSuffix(s, t, r, p);
  }

  /** A run of `p` characters trailing a prefix of a suffix trails it in the
      whole string too. */
  lemma RunAfterSuffix(s: string, t: string, r: string, p: char -> bool)
    requires |t| <= |s| && t == s[|s| - |t|..] && |r| <= |t|
    requires forall k :: |r| <= k < |t| ==> p(t[k])
    ensures forall k :: |s| - |t| + |r| <= k < |s| ==> p(s[k])
  {
    forall k | |s| - |t| + |r| <= k < |s| ensures p(s[k]) {
      assert s[k] == t[k - (|s| - |t|)];
    }
  }

  lemma TrimEndIsTrimmed(t: string)
    requires |t| > 0 ==> !IsSpace(t[0])
    ensures IsTrimmed(TrimEnd(t))
  {
    var r := TrimEnd(t);
    if |r| > 0 {
      assert r[0] == t[0];
    }
  }

  /** A prefix of a suffix is an infix. */
  lemma PrefixOfSuffix(s: string, t: string, r: string)
    requires |t| <= |s| && t == s[|s| - |t|..] && r <= t
    ensures InfixAt(r, s, |s| - |t|)
  {
    var i := |s| - |t|;
    assert r == t[..|r|];
    assert s[i..][..|r|] == s[i..i + |r|];
  }

  lemma TrimEndEmpty(s: string, t: string)
    requires t == TrimStart(s)
    ensures |TrimEnd(t)| == 0 <==> forall k :: 0 <= k < |s| ==> IsSpace(s[k])
  {
  }

  /** Trimming text that has no whitespace at either end changes nothing. */
  lemma TrimOfTrimmed(s: string)
    requires IsTrimmed(s)
    ensures Trim(s) == s
  {
    assert TrimStart(s) == s;
  }

  lemma OccursAtDrop(s: string, pat: string, i: int, j: int)
    requires 0 <= i <= |s| && 0 <= j
    ensures OccursAt(s[i..], pat, j) <==> OccursAt(s, pat, i + j)
  {
    if j <= |s| - i {
      assert s[i..][j..] == s[i + j..];
    }
  }

  /** No occurrence of `pat` starts before index `k` of `s`, so none lies
      wholly inside `s[..k]`. */
  lemma ClearPrefixHasNoOccurrence(s: string, pat: string, k: int)
    requires 0 <= k <= |s|
    requires forall j :: 0 <= j < k ==> !OccursAt(s, pat, j)
    requires |pat| > 0
    ensures !Contains(s[..k], pat)
  {
    if j :| 0 <= j <= k && OccursAt(s[..k], pat, j) {
      assert InfixAt(s[..k], s, 0);
      InfixOccurrence(s[..k], s, 0, pat, j);
    }
  }

  lemma SeqAssoc<T>(a: seq<T>, b: seq<T>, c: seq<T>)
    ensures a + (b + c) == (a + b) + c
  {
  }

  /** Number of indices of `s` at which `pat` starts. */
  function CountOccurrences(s: string, pat: string): nat
    decreases |s|
  {
    if |s| == 0 then 0
    else (if pat <= s then 1 else 0) + CountOccurrences(s[1..], pat)
  }

  /** Occurrences are counted from the first index at which one can start. */
  lemma {:induction false} CountSkipsClearPrefix(s: string, pat: string, i: int)
    requires 0 <= i <= |s|
    requires forall j :: 0 <= j < i ==> !OccursAt(s, pat, j)
    ensures CountOccurrences(s, pat) == CountOccurrences(s[i..], pat)
    decreases i
  {
    if i > 0 {
      assert !OccursAt(s, pat, 0);
      forall j | 0 <= j < i - 1 ensures !OccursAt(s[1..], pat, j) {
        OccursAtShift(s, pat, j);
      }
      CountSkipsClearPrefix(s[1..], pat, i - 1);
      assert s[1..][i - 1..] == s[i..];
    }
  }
}
