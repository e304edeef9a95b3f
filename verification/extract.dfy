/** The per-segment parser inside `loadQuestions` (src/App.tsx:54-85), with its
    three regular expressions restated as scans over marker positions. The
    scans read every character as matchable by `.`; normalised content has no
    line terminators, so on it they agree with the regular expressions. */
module Extract {
  import opened Wrappers
  import opened Text
  import opened Markup

  /** One quiz question, as the `QuizQuestion` interface (src/App.tsx:5-9):
      a single correct answer, held as text. */
  datatype QuizQuestion = QuizQuestion(question: string, variants: seq<string>, correctAnswer: string)

  /** What every question handed to the quiz satisfies. */
  predicate WellFormed(q: QuizQuestion) {
    && |q.question| > 0 && IsTrimmed(q.question) && !Contains(q.question, VariantPrefix)
    && |q.correctAnswer| > 0 && q.correctAnswer in q.variants
    && forall v :: v in q.variants ==> IsOption(v)
  }

  /** A usable option text: non-empty, trimmed, free of option tags. */
  predicate IsOption(t: string) {
    |t| > 0 && IsTrimmed(t) && !Contains(t, VariantPrefix)
  }

  /** The text from the start of `s` up to the next `<variant`-prefixed tag or
      the end: what `(.*?)(?=<variant|<variantright|$)` captures. */
  function Field(s: string): (r: string)
    ensures r <= s
    ensures forall j :: 0 <= j < |r| ==> !OccursAt(s, VariantPrefix, j)
    ensures |r| == |s| || OccursAt(s, VariantPrefix, |r|)
    ensures !Contains(r, VariantPrefix)
  {
    var k := FindOrEnd(s, VariantPrefix);
    ClearPrefixHasNoOccurrence(s, VariantPrefix, k);
    s[..k]
  }

  /** The trimmed field has the same guarantees as the field. */
  lemma TrimmedField(s: string)
    ensures IsTrimmed(Trim(Field(s))) && !Contains(Trim(Field(s)), VariantPrefix)
  {
    InfixKeepsAbsence(Trim(Field(s)), Field(s), VariantPrefix);
  }

  /** Line 56: the question stem is the trimmed text before the first
      `<variant`-prefixed tag; `null` when there is none. */
  function Stem(seg: string): (r: Option<string>)
    ensures r.None? <==> !Contains(seg, VariantPrefix)
    ensures r.Some? ==> IsTrimmed(r.value) && !Contains(r.value, VariantPrefix)
    ensures r.Some? ==> exists k | 0 <= k <= |seg| :: FirstAt(seg, VariantPrefix, k) && r.value == Trim(seg[..k])
  {
    match Find(seg, VariantPrefix)
    case None => None
    case Some(k) =>
      ClearPrefixHasNoOccurrence(seg, VariantPrefix, k);
      InfixKeepsAbsence(Trim(seg[..k]), seg[..k], VariantPrefix);
      Some(Trim(seg[..k]))
  }

  /** Line 63, the global match: one raw field after each `<variant>` tag, in
      tag order, each running to the next `<variant`-prefixed tag or the end. */
  function VariantFields(s: string): (fields: seq<string>)
    ensures forall f :: f in fields ==> !Contains(f, VariantPrefix)
    decreases |s|
  {
    match Find(s, VariantTag)
    case None => []
    case Some(p) =>
      var rest := s[p + |VariantTag|..];
      var f := Field(rest);
      [f] + VariantFields(rest[|f|..])
  }

  /** Lines 64-67: each field trimmed, the empty ones skipped, the rest kept in
      order with repeats. */
  function NonBlank(fields: seq<string>): (opts: seq<string>)
    ensures |opts| <= |fields|
  {
    if |fields| == 0 then []
    else
      var t := Trim(fields[0]);
      var rest := NonBlank(fields[1..]);
      if |t| == 0 then rest else [t] + rest
  }

  /** Fields free of `<variant` yield usable options only. */
  lemma {:induction false} NonBlankAreOptions(fields: seq<string>)
    requires forall f :: f in fields ==> !Contains(f, VariantPrefix)
    ensures forall v :: v in NonBlank(fields) ==> IsOption(v)
    decreases |fields|
  {
    if |fields| > 0 {
      assert forall f :: f in fields[1..] ==> f in fields;
      NonBlankAreOptions(fields[1..]);
      TrimmedFieldIsOption(fields[0]);
    }
  }

  lemma TrimmedFieldIsOption(f: string)
    requires !Contains(f, VariantPrefix)
    ensures |Trim(f)| > 0 ==> IsOption(Trim(f))
  {
    InfixKeepsAbsence(Trim(f), f, VariantPrefix);
  }

  /** Nothing but blank fields is skipped: when every field has text, each one
      yields an option, repeats included. */
  lemma {:induction false} NonBlankKeepsEveryFilledField(fields: seq<string>)
    requires forall k :: 0 <= k < |fields| ==> |Trim(fields[k])| > 0
    ensures |NonBlank(fields)| == |fields|
    ensures forall k :: 0 <= k < |fields| ==> NonBlank(fields)[k] == Trim(fields[k])
  {
    if |fields| > 0 {
      NonBlankKeepsEveryFilledField(fields[1..]);
    }
  }

  /** `NonBlank` works field by field: a lone field yields its trimmed text
      unless that is empty, and the options of a concatenation are the options
      of its halves, in order. */
  lemma {:induction false} NonBlankAppend(a: seq<string>, b: seq<string>)
    ensures NonBlank(a + b) == NonBlank(a) + NonBlank(b)
    ensures |a| == 1 ==> NonBlank(a) == (if |Trim(a[0])| == 0 then [] else [Trim(a[0])])
    decreases |a|
  {
    if |a| == 0 {
      assert a + b == b;
    } else {
      var x, t := a[0], a[1..];
      var o: seq<string> := if |Trim(x)| == 0 then [] else [Trim(x)];
      calc {
        NonBlank(a + b);
      == { assert a == [x] + t; SeqAssoc([x], t, b); }
        NonBlank([x] + (t + b));
      == { NonBlankCons(x, t + b); }
        o + NonBlank(t + b);
      == { NonBlankAppend(t, b); }
        o + (NonBlank(t) + NonBlank(b));
      == { SeqAssoc(o, NonBlank(t), NonBlank(b)); }
        (o + NonBlank(t)) + NonBlank(b);
      == { assert a == [x] + t; NonBlankCons(x, t); }
        NonBlank(a) + NonBlank(b);
      }
      if |a| == 1 {
        assert NonBlank(a) == o by {
          assert a == [x] + [];
          NonBlankCons(x, []);
        }
      }
    }
  }

  lemma NonBlankCons(x: string, c: seq<string>)
    ensures NonBlank([x] + c) == (if |Trim(x)| == 0 then [] else [Trim(x)]) + NonBlank(c)
  {
    assert ([x] + c)[1..] == c;
  }

  /** The plain options of a segment. */
  function PlainOptions(seg: string): (opts: seq<string>)
    ensures forall v :: v in opts ==> IsOption(v)
  {
    NonBlankAreOptions(VariantFields(seg));
    NonBlank(VariantFields(seg))
  }

  /** Line 70, the non-global match: the trimmed field after the FIRST
      `<variantright>` only; `null` when the segment has none. */
  function AnswerKey(seg: string): (r: Option<string>)
    ensures r.None? <==> !Contains(seg, RightTag)
    ensures r.Some? ==> IsTrimmed(r.value) && !Contains(r.value, VariantPrefix)
    ensures r.Some? ==> exists p | 0 <= p <= |seg| ::
      FirstAt(seg, RightTag, p) && r.value == Trim(Field(seg[p + |RightTag|..]))
  {
    match Find(seg, RightTag)
    case None => None
    case Some(p) =>
      TrimmedField(seg[p + |RightTag|..]);
      Some(Trim(Field(seg[p + |RightTag|..])))
  }

  /** Lines 74-76: the answer joins the options at the end unless it is empty or
      already listed. */
  function WithAnswer(opts: seq<string>, answer: string): (r: seq<string>)
    ensures opts <= r && |r| <= |opts| + 1
    ensures |answer| > 0 ==> answer in r
    ensures |r| == |opts| + 1 <==> |answer| > 0 && answer !in opts
    ensures forall x :: x in r ==> x in opts || x == answer
  {
    if |answer| > 0 && answer !in opts then opts + [answer] else opts
  }

  /** Lines 55-84 before the shuffle: the question a segment yields, or `null`.
      A segment survives exactly when its stem and its answer key are both
      non-empty; the `variants.length === 0` test on line 78 never decides. */
  function Candidate(seg: string): (r: Option<QuizQuestion>)
    ensures r.Some? <==>
      && Stem(seg).Some? && |Stem(seg).value| > 0
      && AnswerKey(seg).Some? && |AnswerKey(seg).value| > 0
    ensures r.Some? ==>
      && r.value.question == Stem(seg).value
      && r.value.correctAnswer == AnswerKey(seg).value
      && r.value.variants == WithAnswer(PlainOptions(seg), r.value.correctAnswer)
      && WellFormed(r.value)
  {
    AnswerKeyImpliesStem(seg);
    match Stem(seg)
    case None => None
    case Some(question) =>
      var variants := PlainOptions(seg);
      match AnswerKey(seg)
      case None => None
      case Some(rightAnswer) =>
        var all := WithAnswer(variants, rightAnswer);
        if |question| == 0 || |rightAnswer| == 0 || |all| == 0 then None
        else
          Some(QuizQuestion(question, all, rightAnswer))
  }

  /** A `<variantright>` tag also starts with `<variant`, so a segment with an
      answer key always has a stem. */
  lemma AnswerKeyImpliesStem(seg: string)
    ensures AnswerKey(seg).Some? ==> Stem(seg).Some?
  {
    if p :| 0 <= p <= |seg| && OccursAt(seg, RightTag, p) {
      assert VariantPrefix <= RightTag;
      assert OccursAt(seg, VariantPrefix, p);
    }
  }

  /** Inside a `<variant>` tag no second one can start: its only `<` is the first character. */
  lemma VariantTagDoesNotOverlap(s: string, p: int, d: int)
    requires OccursAt(s, VariantTag, p) && 1 <= d < |VariantTag|
    ensures !OccursAt(s, VariantTag, p + d)
  {
    assert s[p..][..|VariantTag|] == VariantTag;
    assert s[p + d] == VariantTag[d] != VariantTag[0];
    assert p + d < |s| ==> s[p + d..][0] != VariantTag[0];
  }

  /** Where no `<variant` starts, no `<variant>` starts either. */
  lemma TagNeedsPrefix(s: string, j: int)
    requires !OccursAt(s, VariantPrefix, j)
    ensures !OccursAt(s, VariantTag, j)
  {
    assert VariantPrefix <= VariantTag;
  }

  /** Counting from the first `<variant>` tag: that tag, then whatever follows it. */
  lemma CountFromFirstVariantTag(s: string, p: int)
    requires FirstAt(s, VariantTag, p)
    ensures p + |VariantTag| <= |s|
    ensures CountOccurrences(s, VariantTag) == 1 + CountOccurrences(s[p + |VariantTag|..], VariantTag)
  {
    var n := |VariantTag|;
    CountSkipsClearPrefix(s, VariantTag, p);
    assert VariantTag <= s[p..];
    var tail := s[p + 1..];
    assert s[p..][1..] == tail;
    forall d | 0 <= d < n - 1 ensures !OccursAt(tail, VariantTag, d) {
      OccursAtDrop(s, VariantTag, p + 1, d);
      VariantTagDoesNotOverlap(s, p, d + 1);
    }
    CountSkipsClearPrefix(tail, VariantTag, n - 1);
    assert tail[n - 1..] == s[p + n..];
  }

  /** The global match yields exactly one raw field per `<variant>` tag. */
  lemma {:induction false} OneFieldPerVariantTag(s: string)
    ensures |VariantFields(s)| == CountOccurrences(s, VariantTag)
    decreases |s|
  {
    match Find(s, VariantTag)
    case None =>
      CountSkipsClearPrefix(s, VariantTag, |s|);
      assert s[|s|..] == [];
    case Some(p) =>
      var rest := s[p + |VariantTag|..];
      var f := Field(rest);
      CountFromFirstVariantTag(s, p);
      forall j | 0 <= j < |f| ensures !OccursAt(rest, VariantTag, j) {
        TagNeedsPrefix(rest, j);
      }
      CountSkipsClearPrefix(rest, VariantTag, |f|);
      OneFieldPerVariantTag(rest[|f|..]);
  }

  /** The global match restarted at any `<variant>` tag yields a tail of the
      fields of the whole match, and that tail starts with the field the tag opens. */
  lemma {:induction false} FieldsFromTag(s: string, q: int)
    requires OccursAt(s, VariantTag, q)
    ensures q + |VariantTag| <= |s|
    ensures |VariantFields(s[q..])| > 0 && IsTailOf(VariantFields(s[q..]), VariantFields(s))
    ensures VariantFields(s[q..])[0] == Field(s[q + |VariantTag|..])
    decreases |s|, 1
  {
    var n := |VariantTag|;
    assert VariantTag <= s[q..];
    assert Contains(s, VariantTag);
    var p := Find(s, VariantTag).value;
    if p == q {
      VariantFieldsStep(s, p);
      VariantFieldsStep(s[q..], 0);
      assert s[q..][n..] == s[q + n..];
      var fs, gs := VariantFields(s), VariantFields(s[q..]);
      assert fs == gs;
      assert fs[|fs| - |gs|..] == gs;
    } else {
      FieldsFromLaterTag(s, p, q);
    }
  }

  /** The case of a tag after the first: it lies beyond the first field, in
      the text the global match scans next. */
  lemma {:induction false} FieldsFromLaterTag(s: string, p: nat, q: int)
    requires Find(s, VariantTag) == Some(p)
    requires OccursAt(s, VariantTag, q) && p != q
    ensures q + |VariantTag| <= |s|
    ensures |VariantFields(s[q..])| > 0 && IsTailOf(VariantFields(s[q..]), VariantFields(s))
    ensures VariantFields(s[q..])[0] == Field(s[q + |VariantTag|..])
    decreases |s|, 0
  {
    var n := |VariantTag|;
    var rest := s[p + n..];
    var f := Field(rest);
    var m := p + n + |f|;
    VariantFieldsStep(s, p);
    TagAfterFirstField(s, p, q);
    var rest1 := s[m..];
    assert rest[|f|..] == rest1;
    FieldsFromTag(rest1, q - m);
    assert rest1[q - m..] == s[q..];
    assert rest1[q - m + n..] == s[q + n..];
    SuffixOfTail(VariantFields(s), f, VariantFields(rest1), VariantFields(s[q..]));
  }

  /** A `<variant>` tag other than the first lies at or after the end of the
      field the first one opens. */
  lemma TagAfterFirstField(s: string, p: int, q: int)
    requires FirstAt(s, VariantTag, p) && OccursAt(s, VariantTag, q) && p != q
    ensures var m := p + |VariantTag| + |Field(s[p + |VariantTag|..])|;
      m <= q && OccursAt(s[m..], VariantTag, q - m)
  {
    var n := |VariantTag|;
    TagsDoNotOverlap(s, p, q);
    var rest := s[p + n..];
    OccursAtDrop(s, VariantTag, p + n, q - p - n);
    TagBeyondField(rest, q - p - n);
    var m := p + n + |Field(rest)|;
    OccursAtDrop(s, VariantTag, m, q - m);
  }

  /** The global match places each field: the `<variant>` tag at `q`, preceded
      by `k` others, opens field `k`, the text from the end of that tag to the
      next `<variant`-prefixed tag or the end. */
  lemma FieldAfterEachVariantTag(s: string, q: int)
    requires OccursAt(s, VariantTag, q)
    ensures q + |VariantTag| <= |s|
    ensures var k := CountOccurrences(s, VariantTag) - CountOccurrences(s[q..], VariantTag);
      0 <= k < |VariantFields(s)| && VariantFields(s)[k] == Field(s[q + |VariantTag|..])
  {
    FieldsFromTag(s, q);
    OneFieldPerVariantTag(s);
    OneFieldPerVariantTag(s[q..]);
    var fs, gs := VariantFields(s), VariantFields(s[q..]);
    assert fs[|fs| - |gs|..] == gs;
    assert fs[|fs| - |gs|] == fs[|fs| - |gs|..][0];
  }

  /** `ys` ends `xs`. */
  predicate IsTailOf<T(==)>(ys: seq<T>, xs: seq<T>) {
    |ys| <= |xs| && xs[|xs| - |ys|..] == ys
  }

  lemma SuffixOfTail<T>(xs: seq<T>, x: T, ys: seq<T>, zs: seq<T>)
    requires xs == [x] + ys && IsTailOf(zs, ys)
    ensures IsTailOf(zs, xs)
  {
    assert xs[|xs| - |zs|..] == ys[|ys| - |zs|..];
  }

  /** One step of the global match: the field after the first tag, then the rest. */
  lemma VariantFieldsStep(s: string, p: nat)
    requires Find(s, VariantTag) == Some(p)
    ensures p + |VariantTag| <= |s|
    ensures var rest := s[p + |VariantTag|..];
      VariantFields(s) == [Field(rest)] + VariantFields(rest[|Field(rest)|..])
  {
    assert VariantTag <= s[p..];
  }

  /** A later `<variant>` tag starts after the first one ends. */
  lemma TagsDoNotOverlap(s: string, p: int, q: int)
    requires FirstAt(s, VariantTag, p) && OccursAt(s, VariantTag, q) && p != q
    ensures p + |VariantTag| <= q
  {
    if q < p + |VariantTag| {
      VariantTagDoesNotOverlap(s, p, q - p);
    }
  }

  /** A `<variant>` tag in the scanned text lies at or beyond the end of the
      field, and none starts inside it. */
  lemma TagBeyondField(rest: string, q1: int)
    requires OccursAt(rest, VariantTag, q1)
    ensures |Field(rest)| <= q1
  {
    assert VariantPrefix <= VariantTag;
    assert OccursAt(rest, VariantPrefix, q1);
  }
}
