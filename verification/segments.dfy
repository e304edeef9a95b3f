/** `content.split('<question>').filter(Boolean)` (src/App.tsx:52-53): the
    normalised content cut into candidate question segments. */
module Segments {
  import opened Text
  import opened Markup
  import Normalise

  /** The pieces joined back together with `sep` between neighbours. */
  function Join(parts: seq<string>, sep: string): string
    requires |parts| >= 1
  {
    if |parts| == 1 then parts[0] else parts[0] + sep + Join(parts[1..], sep)
  }

  /** All pieces concatenated with nothing between them. */
  function Concat(parts: seq<string>): string {
    if |parts| == 0 then [] else parts[0] + Concat(parts[1..])
  }

  /** `s.split(sep)` for a literal, non-empty separator: cut at every occurrence,
      leftmost first, resuming after each. Joining the pieces restores `s`. */
  function Split(s: string, sep: string): (parts: seq<string>)
    requires |sep| > 0
    ensures |parts| >= 1
    ensures forall k :: 0 <= k < |parts| ==> !Contains(parts[k], sep)
    ensures Join(parts, sep) == s
    decreases |s|
  {
    match Find(s, sep)
    case None => [s]
    case Some(k) =>
      var head, tail := s[..k], s[k + |sep|..];
      ClearPrefixHasNoOccurrence(s, sep, k);
      assert s == head + sep + tail;
      var parts := [head] + Split(tail, sep);
      assert parts[1..] == Split(tail, sep);
      parts
  }

  /** `.filter(Boolean)` on strings: drop the empty ones, keep the order. */
  function DropEmpty(parts: seq<string>): (r: seq<string>)
    ensures |r| <= |parts|
    ensures forall k :: 0 <= k < |r| ==> r[k] != []
    ensures forall x :: x in r <==> x in parts && x != []
  {
    if |parts| == 0 then []
    else if parts[0] == [] then DropEmpty(parts[1..])
    else [parts[0]] + DropEmpty(parts[1..])
  }

  /** `filter` works piece by piece: a lone piece is kept exactly when it is
      non-empty, and filtering a concatenation concatenates the filtered halves,
      so the kept pieces stay in order with their repeats. */
  lemma {:induction false} DropEmptyAppend(a: seq<string>, b: seq<string>)
    ensures DropEmpty(a + b) == DropEmpty(a) + DropEmpty(b)
    ensures |a| == 1 ==> DropEmpty(a) == (if a[0] == [] then [] else a)
    decreases |a|
  {
    if |a| > 0 {
      assert (a + b)[0] == a[0];
      assert (a + b)[1..] == a[1..] + b;
      DropEmptyAppend(a[1..], b);
      if |a| == 1 {
        assert a[1..] == [];
      }
    } else {
      assert a + b == b;
    }
  }

  /** The candidate question segments of normalised content. */
  function Segments(content: string): (segs: seq<string>)
    ensures forall k :: 0 <= k < |segs| ==> segs[k] != [] && !Contains(segs[k], QuestionTag)
  {
    var parts := Split(content, QuestionTag);
    var segs := DropEmpty(parts);
    assert forall k :: 0 <= k < |segs| ==> segs[k] in parts;
    segs
  }

  /** The text before the first `<question>`, when not empty, is itself the
      first candidate segment. */
  lemma LeadingTextIsFirstSegment(content: string)
    requires content[..FindOrEnd(content, QuestionTag)] != []
    ensures |Segments(content)| > 0
    ensures Segments(content)[0] == content[..FindOrEnd(content, QuestionTag)]
  {
  }

  lemma {:induction false} ConcatDropEmpty(parts: seq<string>)
    ensures Concat(DropEmpty(parts)) == Concat(parts)
  {
    if |parts| > 0 {
      ConcatDropEmpty(parts[1..]);
      if parts[0] != [] {
        assert ([parts[0]] + DropEmpty(parts[1..]))[1..] == DropEmpty(parts[1..]);
      }
    }
  }

  /** Splitting and concatenating deletes every separator, exactly as the
      single left-to-right deletion pass does. */
  lemma {:induction false} ConcatSplit(s: string, sep: string)
    requires |sep| > 0
    ensures Concat(Split(s, sep)) == Normalise.RemoveAll(s, sep)
    decreases |s|
  {
    match Find(s, sep)
    case None =>
      Normalise.RemoveAllAbsent(s, sep);
    case Some(k) =>
      var head, tail := s[..k], s[k + |sep|..];
      assert s == head + (sep + tail);
      Normalise.RemoveAllSkipsClearPrefix(head, sep + tail, sep);
      assert sep <= sep + tail;
      assert (sep + tail)[|sep|..] == tail;
      ConcatSplit(tail, sep);
      assert ([head] + Split(tail, sep))[1..] == Split(tail, sep);
  }

  /** The kept segments, read in order, spell out the content with every
      `<question>` tag deleted: nothing is lost, reordered or repeated. */
  lemma SegmentsSpellContent(content: string)
    ensures Concat(Segments(content)) == Normalise.RemoveAll(content, QuestionTag)
  {
    ConcatDropEmpty(Split(content, QuestionTag));
    ConcatSplit(content, QuestionTag);
  }
}
