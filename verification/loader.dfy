/** `loadQuestions` after the document text is in hand (src/App.tsx:38-90):
    normalise, reject empty content, split into segments, parse each segment,
    shuffle each survivor's options, and reject a document with no survivors. */
module Loader {
  import opened Wrappers
  import opened Text
  import opened Normalise
  import opened Segments
  import opened Extract
  import opened Shuffle

  /** The two errors the core raises. */
  datatype LoadError = NoContent | NoValidQuestions

  /** The messages the errors carry (src/App.tsx:48, 89). */
  function Message(e: LoadError): (r: string)
    ensures |r| > 0
  {
    match e
    case NoContent => "No content found in document"
    case NoValidQuestions => "No valid questions found in the document. Please check the document format."
  }

  /** The two failures are told apart by their messages. */
  lemma MessageIdentifiesError(a: LoadError, b: LoadError)
    ensures Message(a) == Message(b) <==> a == b
  {
    if a != b {
      assert |Message(a)| != |Message(b)| by {
        assert |Message(NoContent)| == 28;
      }
    }
  }

  /** The random source: the swap indices used while shuffling the options of
      the segment at each index. */
  type Oracle = nat -> Chooser

  /** The question differs from the candidate only in the order of its options. */
  predicate Reordered(q: QuizQuestion, c: QuizQuestion) {
    && q.question == c.question
    && q.correctAnswer == c.correctAnswer
    && |q.variants| == |c.variants|
    && multiset(q.variants) == multiset(c.variants)
  }

  /** A shuffle keeps every guarantee of a well-formed question. */
  lemma ReorderedKeepsWellFormed(q: QuizQuestion, c: QuizQuestion)
    requires Reordered(q, c) && WellFormed(c)
    ensures WellFormed(q)
  {
    assert c.correctAnswer in multiset(c.variants);
    forall v | v in q.variants ensures IsOption(v) {
      assert v in multiset(q.variants);
    }
  }

  /** Lines 55-84: one segment's question with its options shuffled (line 82). */
  function ParseSegment(seg: string, choose: Chooser): (r: Option<QuizQuestion>)
    ensures r.Some? <==> Candidate(seg).Some?
    ensures r.Some? ==> Reordered(r.value, Candidate(seg).value) && WellFormed(r.value)
  {
    match Candidate(seg)
    case None => None
    case Some(c) =>
      var q := c.(variants := Shuffled(c.variants, choose));
      ShufflePermutes(c.variants, choose);
      ReorderedKeepsWellFormed(q, c);
      Some(q)
  }

  /** `.filter(q => q !== null)` (line 86): the present values, in order. */
  function Present<T>(xs: seq<Option<T>>): (ys: seq<T>)
    ensures |ys| <= |xs|
  {
    if |xs| == 0 then []
    else
      var rest := Present(xs[1..]);
      if xs[0].Some? then [xs[0].value] + rest else rest
  }

  /** The filter keeps exactly the present values. */
  lemma {:induction false} PresentMembers<T(!new)>(xs: seq<Option<T>>)
    ensures forall y :: y in Present(xs) <==> Some(y) in xs
  {
    if |xs| > 0 {
      PresentMembers(xs[1..]);
      assert xs == [xs[0]] + xs[1..];
    }
  }

  /** `.map(f)`: `f` applied to every element, in order. */
  function Map<A, B>(xs: seq<A>, f: A -> B): (ys: seq<B>)
    ensures |ys| == |xs|
    ensures forall k :: 0 <= k < |xs| ==> ys[k] == f(xs[k])
  {
    if |xs| == 0 then [] else [f(xs[0])] + Map(xs[1..], f)
  }

  lemma {:induction false} MapAppend<A, B>(a: seq<A>, b: seq<A>, f: A -> B)
    ensures Map(a + b, f) == Map(a, f) + Map(b, f)
  {
    assert |Map(a + b, f)| == |Map(a, f) + Map(b, f)|;
    forall k | 0 <= k < |a + b| ensures Map(a + b, f)[k] == (Map(a, f) + Map(b, f))[k] {
      if k < |a| {
        assert (a + b)[k] == a[k];
      } else {
        assert (a + b)[k] == b[k - |a|];
      }
    }
  }

  /** What each segment yields before shuffling. */
  function Candidates(segs: seq<string>): (cs: seq<Option<QuizQuestion>>)
    ensures |cs| == |segs|
  {
    Map(segs, Candidate)
  }

  /** The questions a document's segments yield, in segment order, before
      their options are shuffled. */
  function Kept(segs: seq<string>): seq<QuizQuestion> {
    Present(Candidates(segs))
  }

  /** The `.map(...)` step (lines 55-84): segment `k` draws its swap indices
      from `oracle(k)`. */
  function Parsed(segs: seq<string>, oracle: Oracle): (ps: seq<Option<QuizQuestion>>)
    ensures |ps| == |segs|
  {
    seq(|segs|, k requires 0 <= k < |segs| => ParseSegment(segs[k], oracle(k)))
  }

  /** Two option sequences that agree on which entries are present, and whose
      present entries differ only in option order, keep that relation after
      the null filter. */
  lemma {:induction false} PresentReordered(xs: seq<Option<QuizQuestion>>, ys: seq<Option<QuizQuestion>>)
    requires |xs| == |ys|
    requires forall k :: 0 <= k < |xs| ==> xs[k].Some? == ys[k].Some?
    requires forall k :: 0 <= k < |xs| && xs[k].Some? && ys[k].Some? ==> Reordered(xs[k].value, ys[k].value)
    ensures |Present(xs)| == |Present(ys)|
    ensures forall k :: 0 <= k < |Present(xs)| ==> Reordered(Present(xs)[k], Present(ys)[k])
  {
    if |xs| > 0 {
      PresentReordered(xs[1..], ys[1..]);
      var px, py := Present(xs[1..]), Present(ys[1..]);
      if xs[0].Some? {
        assert Present(xs) == [xs[0].value] + px;
        assert Present(ys) == [ys[0].value] + py;
        forall k | 0 < k < |Present(xs)| ensures Reordered(Present(xs)[k], Present(ys)[k]) {
          assert Present(xs)[k] == px[k - 1];
          assert Present(ys)[k] == py[k - 1];
        }
      } else {
        assert Present(xs) == px;
        assert Present(ys) == py;
      }
    }
  }

  /** Shuffling changes neither which segments yield a question nor what the
      question and its answer are. */
  lemma ParsedMatchesCandidates(segs: seq<string>, oracle: Oracle)
    ensures forall k :: 0 <= k < |segs| ==> Parsed(segs, oracle)[k].Some? == Candidates(segs)[k].Some?
    ensures forall k :: 0 <= k < |segs| && Parsed(segs, oracle)[k].Some? && Candidates(segs)[k].Some? ==>
      Reordered(Parsed(segs, oracle)[k].value, Candidates(segs)[k].value)
  {
    forall k | 0 <= k < |segs|
      ensures Parsed(segs, oracle)[k].Some? == Candidates(segs)[k].Some?
      ensures Parsed(segs, oracle)[k].Some? ==> Reordered(Parsed(segs, oracle)[k].value, Candidates(segs)[k].value)
    {
      var p := ParseSegment(segs[k], oracle(k));
      assert Parsed(segs, oracle)[k] == p;
      assert Candidates(segs)[k] == Candidate(segs[k]);
    }
  }

  /** The `.map(...).filter(...)` chain: the kept questions, each with its
      options shuffled. */
  function ParseAll(segs: seq<string>, oracle: Oracle): (qs: seq<QuizQuestion>)
    ensures |qs| == |Kept(segs)|
    ensures forall k :: 0 <= k < |qs| ==> Reordered(qs[k], Kept(segs)[k])
  {
    ParsedMatchesCandidates(segs, oracle);
    PresentReordered(Parsed(segs, oracle), Candidates(segs));
    Present(Parsed(segs, oracle))
  }

  /** The whole load, from extracted document text to the question list. */
  function LoadQuestions(raw: string, oracle: Oracle): (r: Result<seq<QuizQuestion>, LoadError>)
    ensures r == Failure(NoContent) <==> |Normalise.Normalise(raw)| == 0
    ensures r == Failure(NoValidQuestions) <==>
      |Normalise.Normalise(raw)| > 0 && |Kept(Segments.Segments(Normalise.Normalise(raw)))| == 0
    ensures r.Success? ==>
      && |r.value| > 0
      && |r.value| == |Kept(Segments.Segments(Normalise.Normalise(raw)))|
      && forall k :: 0 <= k < |r.value| ==>
           Reordered(r.value[k], Kept(Segments.Segments(Normalise.Normalise(raw)))[k])
  {
    var content := Normalise.Normalise(raw);
    if |content| == 0 then Failure(NoContent)
    else
      var questions := ParseAll(Segments.Segments(content), oracle);
      if |questions| == 0 then Failure(NoValidQuestions)
      else Success(questions)
  }

  /** Every question present in `cs` is well formed. */
  predicate AllWellFormed(cs: seq<Option<QuizQuestion>>) {
    forall k :: 0 <= k < |cs| && cs[k].Some? ==> WellFormed(cs[k].value)
  }

  lemma CandidatesWellFormed(segs: seq<string>)
    ensures AllWellFormed(Candidates(segs))
  {
    var cs := Candidates(segs);
    forall k | 0 <= k < |cs| && cs[k].Some? ensures WellFormed(cs[k].value) {
      assert cs[k] == Candidate(segs[k]);
    }
  }

  lemma PresentWellFormed(cs: seq<Option<QuizQuestion>>)
    requires AllWellFormed(cs)
    ensures forall q :: q in Present(cs) ==> WellFormed(q)
  {
    PresentMembers(cs);
    forall q | q in Present(cs) ensures WellFormed(q) {
      var k :| 0 <= k < |cs| && cs[k] == Some(q);
    }
  }

  /** Every surviving candidate is a well-formed question. */
  lemma KeptAreWellFormed(segs: seq<string>)
    ensures forall q :: q in Kept(segs) ==> WellFormed(q)
  {
    CandidatesWellFormed(segs);
    PresentWellFormed(Candidates(segs));
  }

  /** Every question a successful load returns is well formed: a non-empty
      trimmed stem, non-blank options, and an answer among the options. */
  lemma LoadedQuestionsAreWellFormed(raw: string, oracle: Oracle)
    ensures LoadQuestions(raw, oracle).Success? ==>
      forall q :: q in LoadQuestions(raw, oracle).value ==> WellFormed(q)
  {
    var r := LoadQuestions(raw, oracle);
    if r.Success? {
      var kept := Kept(Segments.Segments(Normalise.Normalise(raw)));
      KeptAreWellFormed(Segments.Segments(Normalise.Normalise(raw)));
      forall q | q in r.value ensures WellFormed(q) {
        var k :| 0 <= k < |r.value| && r.value[k] == q;
        assert kept[k] in kept;
        ReorderedKeepsWellFormed(q, kept[k]);
      }
    }
  }

  lemma {:induction false} PresentAppend<T>(a: seq<Option<T>>, b: seq<Option<T>>)
    ensures Present(a + b) == Present(a) + Present(b)
  {
    if |a| > 0 {
      assert (a + b)[0] == a[0];
      assert (a + b)[1..] == a[1..] + b;
      PresentAppend(a[1..], b);
    } else {
      assert a + b == b;
    }
  }

  /** The null filter drops a missing entry and leaves both sides as they were. */
  lemma PresentSkipsNone<T>(a: seq<Option<T>>, b: seq<Option<T>>)
    ensures Present(a + [None] + b) == Present(a) + Present(b)
  {
    var none: seq<Option<T>> := [None];
    PresentAppend(a + none, b);
    PresentAppend(a, none);
    assert Present(none) == [];
  }

  lemma CandidatesAround(before: seq<string>, seg: string, after: seq<string>)
    requires Candidate(seg).None?
    ensures Candidates(before + [seg] + after) == Candidates(before) + [None] + Candidates(after)
  {
    MapAppend(before + [seg], after, Candidate);
    MapAppend(before, [seg], Candidate);
    assert Map([seg], Candidate) == [None];
  }

  /** Segments are parsed independently: a segment that yields nothing is
      dropped without changing what its neighbours yield. */
  lemma DroppedSegmentLeavesOthers(before: seq<string>, seg: string, after: seq<string>)
    requires Candidate(seg).None?
    ensures Kept(before + [seg] + after) == Kept(before) + Kept(after)
  {
    CandidatesAround(before, seg, after);
    PresentSkipsNone(Candidates(before), Candidates(after));
  }

  /** Whether a document loads, and how many questions it yields, does not
      depend on the random source; only the order of options does. */
  lemma OutcomeIgnoresOracle(raw: string, o1: Oracle, o2: Oracle)
    ensures LoadQuestions(raw, o1).Success? <==> LoadQuestions(raw, o2).Success?
    ensures LoadQuestions(raw, o1).Success? ==> |LoadQuestions(raw, o1).value| == |LoadQuestions(raw, o2).value|
  {
  }

  /** A document whose text is all whitespace fails with "No content found". */
  lemma BlankDocumentHasNoContent(raw: string, oracle: Oracle)
    requires forall k :: 0 <= k < |raw| ==> IsSpace(raw[k])
    ensures LoadQuestions(raw, oracle) == Failure(NoContent)
  {
    BlankTextNormalisesEmpty(raw);
  }

  /** Conversely, a document holding any character that is neither whitespace
      nor part of a closing tag never fails with "No content found". */
  lemma TextualDocumentHasContent(raw: string, c: char, oracle: Oracle)
    requires c in raw && Normalise.IsTextChar(c)
    ensures LoadQuestions(raw, oracle) != Failure(NoContent)
  {
    Normalise.TextSurvivesNormalisation(raw, c);
  }
}
