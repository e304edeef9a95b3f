/** The content clean-up at the start of `loadQuestions` (src/App.tsx:38-45):
    newline runs become a space, whitespace runs collapse to one space, the
    three closing tags are deleted, and the result is trimmed. */
module Normalise {
  import opened Text
  import opened Markup

  /** The suffix of `s` left after its leading run of `inRun` characters. */
  function SkipRun(s: string, inRun: char -> bool): (r: string)
    ensures |r| <= |s| && r == s[|s| - |r|..]
    ensures |r| > 0 ==> !inRun(r[0])
    ensures |s| > 0 && inRun(s[0]) ==> |r| < |s|
  {
    if |s| > 0 && inRun(s[0]) then
      var r := SkipRun(s[1..], inRun);
      assert s[1..][|s| - 1 - |r|..] == s[|s| - |r|..];
      r
    else s
  }

  /** The characters of `s` outside the class `inRun`, in order. */
  function Strip(s: string, inRun: char -> bool): string {
    if |s| == 0 then []
    else if inRun(s[0]) then Strip(s[1..], inRun)
    else [s[0]] + Strip(s[1..], inRun)
  }

  lemma {:induction false} StripSkipped(s: string, inRun: char -> bool)
    ensures Strip(SkipRun(s, inRun), inRun) == Strip(s, inRun)
    decreases |s|
  {
    if |s| > 0 && inRun(s[0]) {
      StripSkipped(s[1..], inRun);
    }
  }

  /** `s.replace(/X+/g, ' ')` for the character class `X` given by `inRun`:
      every maximal run of class characters becomes a single space. */
  function ReplaceRuns(s: string, inRun: char -> bool): (r: string)
    ensures |r| == 0 <==> |s| == 0
    ensures forall c :: c in r ==> c == ' ' || c in s
    ensures |s| > 0 ==> r[0] == (if inRun(s[0]) then ' ' else s[0])
    ensures forall k :: 0 <= k < |r| && inRun(r[k]) ==> r[k] == ' '
    decreases |s|
  {
    if |s| == 0 then []
    else if inRun(s[0]) then
      var rest := ReplaceRuns(SkipRun(s, inRun), inRun);
      assert (" " + rest)[1..] == rest;
      " " + rest
    else
      var rest := ReplaceRuns(s[1..], inRun);
      assert ([s[0]] + rest)[1..] == rest;
      [s[0]] + rest
  }

  /** When the replacement space is itself in the class, the result has no two
      class characters in a row, and every character outside the class
      survives, in order. */
  lemma {:induction false} ReplaceRunsKeepsText(s: string, inRun: char -> bool)
    requires inRun(' ')
    ensures var r := ReplaceRuns(s, inRun);
      && (forall k :: 0 <= k < |r| - 1 ==> !(inRun(r[k]) && inRun(r[k + 1])))
      && Strip(r, inRun) == Strip(s, inRun)
    decreases |s|
  {
    if |s| > 0 {
      if inRun(s[0]) {
        var t := SkipRun(s, inRun);
        var rest := ReplaceRuns(t, inRun);
        ReplaceRunsKeepsText(t, inRun);
        StripSkipped(s, inRun);
        assert ReplaceRuns(s, inRun) == " " + rest;
        assert (" " + rest)[1..] == rest;
      } else {
        var rest := ReplaceRuns(s[1..], inRun);
        ReplaceRunsKeepsText(s[1..], inRun);
        assert ReplaceRuns(s, inRun) == [s[0]] + rest;
        assert ([s[0]] + rest)[1..] == rest;
      }
    }
  }

  /** Skipping a run never reaches past a boundary the run cannot cross. */
  lemma {:induction false} SkipRunAppend(x: string, y: string, inRun: char -> bool)
    requires (|x| > 0 && !inRun(x[|x| - 1])) || |y| == 0 || !inRun(y[0])
    ensures SkipRun(x + y, inRun) == SkipRun(x, inRun) + y
    decreases |x|
  {
    if |x| == 0 {
      assert x + y == y;
    } else if inRun(x[0]) {
      assert (x + y)[1..] == x[1..] + y;
      SkipRunAppend(x[1..], y, inRun);
    }
  }

  /** The replacement works run by run: cutting the text where no run is split
      cuts the result at the same place. */
  lemma {:induction false} ReplaceRunsSplits(x: string, y: string, inRun: char -> bool)
    requires |x| == 0 || |y| == 0 || !inRun(x[|x| - 1]) || !inRun(y[0])
    ensures ReplaceRuns(x + y, inRun) == ReplaceRuns(x, inRun) + ReplaceRuns(y, inRun)
    decreases |x|
  {
    if |x| == 0 {
      assert x + y == y;
    } else if inRun(x[0]) {
      var t := SkipRun(x, inRun);
      assert (x + y)[0] == x[0];
      SkipRunAppend(x, y, inRun);
      assert |t| > 0 ==> t[|t| - 1] == x[|x| - 1];
      ReplaceRunsSplits(t, y, inRun);
      assert ReplaceRuns(x + y, inRun) == " " + ReplaceRuns(t + y, inRun);
      SeqAssoc(" ", ReplaceRuns(t, inRun), ReplaceRuns(y, inRun));
    } else {
      var x1 := x[1..];
      assert (x + y)[0] == x[0];
      assert (x + y)[1..] == x1 + y;
      assert |x1| > 0 ==> x1[|x1| - 1] == x[|x| - 1];
      ReplaceRunsSplits(x1, y, inRun);
      assert ReplaceRuns(x + y, inRun) == [x[0]] + ReplaceRuns(x1 + y, inRun);
      SeqAssoc([x[0]], ReplaceRuns(x1, inRun), ReplaceRuns(y, inRun));
    }
  }

  /** Text without class characters is left as it is. */
  lemma {:induction false} ReplaceRunsKeepsPlainText(x: string, inRun: char -> bool)
    requires forall k :: 0 <= k < |x| ==> !inRun(x[k])
    ensures ReplaceRuns(x, inRun) == x
    decreases |x|
  {
    if |x| > 0 {
      ReplaceRunsKeepsPlainText(x[1..], inRun);
      assert x == [x[0]] + x[1..];
    }
  }

  /** A whole run of class characters becomes exactly one space. */
  lemma {:induction false} ReplaceRunsOfRun(w: string, inRun: char -> bool)
    requires |w| > 0 && forall k :: 0 <= k < |w| ==> inRun(w[k])
    ensures ReplaceRuns(w, inRun) == " "
  {
    assert SkipRun(w, inRun) == [] by {
      AllClassSkipped(w, inRun);
    }
  }

  lemma {:induction false} AllClassSkipped(w: string, inRun: char -> bool)
    requires forall k :: 0 <= k < |w| ==> inRun(w[k])
    ensures SkipRun(w, inRun) == []
    decreases |w|
  {
    if |w| > 0 {
      AllClassSkipped(w[1..], inRun);
    }
  }

  /** Each maximal run becomes exactly one space and the text around it is
      replaced on its own: `x + w + y` with `w` a maximal run gives
      `ReplaceRuns(x) + " " + ReplaceRuns(y)`. */
  lemma RunBecomesOneSpace(x: string, w: string, y: string, inRun: char -> bool)
    requires |w| > 0 && forall k :: 0 <= k < |w| ==> inRun(w[k])
    requires |x| == 0 || !inRun(x[|x| - 1])
    requires |y| == 0 || !inRun(y[0])
    ensures ReplaceRuns(x + w + y, inRun) == ReplaceRuns(x, inRun) + " " + ReplaceRuns(y, inRun)
  {
    ReplaceRunsOfRun(w, inRun);
    ReplaceRunsSplits(x, w, inRun);
    ReplaceRunsSplits(x + w, y, inRun);
  }

  /** Skipping a run keeps every character outside the class. */
  lemma {:induction false} SkipRunKeepsCount(s: string, inRun: char -> bool, c: char)
    requires !inRun(c)
    ensures multiset(SkipRun(s, inRun))[c] == multiset(s)[c]
    decreases |s|
  {
    if |s| > 0 && inRun(s[0]) {
      SkipRunKeepsCount(s[1..], inRun, c);
      assert s == [s[0]] + s[1..];
    }
  }

  /** The replacement keeps every character that is neither in the class nor
      the space it writes. */
  lemma {:induction false} ReplaceRunsKeepsCount(s: string, inRun: char -> bool, c: char)
    requires !inRun(c) && c != ' '
    ensures multiset(ReplaceRuns(s, inRun))[c] == multiset(s)[c]
    decreases |s|
  {
    if |s| > 0 {
      if inRun(s[0]) {
        var t := SkipRun(s, inRun);
        ReplaceRunsKeepsCount(t, inRun, c);
        SkipRunKeepsCount(s, inRun, c);
        assert multiset(" " + ReplaceRuns(t, inRun)) == multiset(" ") + multiset(ReplaceRuns(t, inRun));
      } else {
        ReplaceRunsKeepsCount(s[1..], inRun, c);
        assert s == [s[0]] + s[1..];
        assert multiset([s[0]] + ReplaceRuns(s[1..], inRun))
          == multiset([s[0]]) + multiset(ReplaceRuns(s[1..], inRun));
      }
    }
  }

  predicate IsNewline(c: char) {
    c == '\n'
  }

  /** `.replace(/\n+/g, ' ')` */
  function ReplaceNewlineRuns(s: string): (r: string)
    ensures |r| == 0 <==> |s| == 0
    ensures forall k :: 0 <= k < |r| ==> r[k] != '\n'
  {
    ReplaceRuns(s, IsNewline)
  }

  /** `.replace(/\s+/g, ' ')` */
  function CollapseWhitespace(s: string): (r: string)
    ensures |r| == 0 <==> |s| == 0
    ensures forall k :: 0 <= k < |r| && IsSpace(r[k]) ==> r[k] == ' '
    ensures forall k :: 0 <= k < |r| - 1 ==> !(IsSpace(r[k]) && IsSpace(r[k + 1]))
  {
    ReplaceRunsKeepsText(s, IsSpace);
    ReplaceRuns(s, IsSpace)
  }

  /** `s.replace(/pat/g, '')` for a literal `pat`: scanning left to right, each
      occurrence is deleted and the scan resumes after it, in a single pass. */
  function RemoveAll(s: string, pat: string): (r: string)
    requires |pat| > 0
    ensures |r| <= |s|
    ensures forall c :: c in r ==> c in s
    decreases |s|
  {
    if |s| == 0 then []
    else if pat <= s then RemoveAll(s[|pat|..], pat)
    else [s[0]] + RemoveAll(s[1..], pat)
  }

  /** Deletion only ever removes characters of `pat`: every other character
      keeps its number of occurrences. */
  lemma {:induction false} RemoveAllKeepsOtherChars(s: string, pat: string, c: char)
    requires |pat| > 0
    requires c !in pat
    ensures multiset(RemoveAll(s, pat))[c] == multiset(s)[c]
    decreases |s|
  {
    if |s| == 0 {
    } else if pat <= s {
      RemoveAllKeepsOtherChars(s[|pat|..], pat, c);
      assert s == pat + s[|pat|..];
      assert multiset(pat)[c] == 0;
    } else {
      RemoveAllKeepsOtherChars(s[1..], pat, c);
      assert s == [s[0]] + s[1..];
    }
  }

  /** Text without an occurrence of `pat` passes through unchanged. */
  lemma {:induction false} RemoveAllAbsent(s: string, pat: string)
    requires |pat| > 0
    requires !Contains(s, pat)
    ensures RemoveAll(s, pat) == s
    decreases |s|
  {
    if |s| > 0 {
      assert !OccursAt(s, pat, 0);
      assert !Contains(s[1..], pat) by {
        if j :| 0 <= j <= |s[1..]| && OccursAt(s[1..], pat, j) {
          OccursAtShift(s, pat, j);
        }
      }
      RemoveAllAbsent(s[1..], pat);
      assert s == [s[0]] + s[1..];
    }
  }

  /** Every whitespace character in `s` is a plain space. */
  predicate SpacesArePlain(s: string) {
    forall c :: c in s && IsSpace(c) ==> c == ' '
  }

  /** The four chained calls before `.trim()`. */
  function Cleaned(raw: string): (r: string)
    ensures SpacesArePlain(r)
  {
    var collapsed := CollapseWhitespace(ReplaceNewlineRuns(raw));
    assert SpacesArePlain(collapsed) by {
      forall c | c in collapsed && IsSpace(c) ensures c == ' ' {
        var k :| 0 <= k < |collapsed| && collapsed[k] == c;
      }
    }
    RemoveAll(RemoveAll(RemoveAll(collapsed, VariantClose), RightClose), QuestionClose)
  }

  /** The normalised content: plain spaces only, none at either end, and so no
      line terminators, which is what lets the extractor's `.` match every character. */
  function Normalise(raw: string): (r: string)
    ensures IsTrimmed(r)
    ensures SpacesArePlain(r)
    ensures forall k :: 0 <= k < |r| ==> !IsLineTerminator(r[k])
  {
    var c := Cleaned(raw);
    TrimKeepsPlainSpaces(c);
    Trim(c)
  }

  lemma TrimKeepsPlainSpaces(c: string)
    requires SpacesArePlain(c)
    ensures SpacesArePlain(Trim(c))
    ensures forall k :: 0 <= k < |Trim(c)| ==> !IsLineTerminator(Trim(c)[k])
  {
    var r := Trim(c);
    forall ch | ch in r && IsSpace(ch) ensures ch == ' ' {
      assert ch in c;
    }
    forall k | 0 <= k < |r| ensures !IsLineTerminator(r[k]) {
      assert r[k] in r;
    }
  }

  /** A character that is neither whitespace nor part of a closing tag: no
      step of the normaliser can remove or create it. */
  predicate IsTextChar(c: char) {
    !IsSpace(c) && c !in VariantClose && c !in RightClose && c !in QuestionClose
  }

  /** Every character outside whitespace and the closing tags' letters keeps
      its number of occurrences. */
  lemma NormaliseKeepsText(raw: string, c: char)
    requires IsTextChar(c)
    ensures multiset(Normalise(raw))[c] == multiset(raw)[c]
  {
    var nl := ReplaceNewlineRuns(raw);
    ReplaceRunsKeepsCount(raw, IsNewline, c);
    ReplaceRunsKeepsCount(nl, IsSpace, c);
    var collapsed := CollapseWhitespace(nl);
    var a := RemoveAll(collapsed, VariantClose);
    var b := RemoveAll(a, RightClose);
    RemoveAllKeepsOtherChars(collapsed, VariantClose, c);
    RemoveAllKeepsOtherChars(a, RightClose, c);
    RemoveAllKeepsOtherChars(b, QuestionClose, c);
    TrimKeepsCount(Cleaned(raw), c);
  }

  /** When collapsing leaves none of the three closing tags, the deletions
      change nothing: the content is the collapsed document, trimmed. */
  lemma NormaliseWithoutClosingTags(raw: string)
    requires !Contains(CollapseWhitespace(raw), VariantClose)
    requires !Contains(CollapseWhitespace(raw), RightClose)
    requires !Contains(CollapseWhitespace(raw), QuestionClose)
    ensures Normalise(raw) == Trim(CollapseWhitespace(raw))
  {
    var collapsed := CollapseWhitespace(raw);
    NewlinePassIsAbsorbed(raw);
    assert CollapseWhitespace(ReplaceNewlineRuns(raw)) == collapsed;
    RemoveAllAbsent(collapsed, VariantClose);
    RemoveAllAbsent(collapsed, RightClose);
    RemoveAllAbsent(collapsed, QuestionClose);
    assert Cleaned(raw) == collapsed;
  }

  /** Trimming keeps every character that is not whitespace. */
  lemma TrimKeepsCount(s: string, c: char)
    requires !IsSpace(c)
    ensures multiset(Trim(s))[c] == multiset(s)[c]
  {
    TrimStartKeepsCount(s, c);
    TrimEndKeepsCount(TrimStart(s), c);
  }

  lemma TrimStartKeepsCount(s: string, c: char)
    requires !IsSpace(c)
    ensures multiset(TrimStart(s))[c] == multiset(s)[c]
  {
    var r := TrimStart(s);
    var i := |s| - |r|;
    var pre := s[..i];
    assert s == pre + r;
    assert forall k :: 0 <= k < |pre| ==> IsSpace(pre[k]);
    NoCountInSpace(pre, c);
  }

  lemma NoCountInSpace(w: string, c: char)
    requires !IsSpace(c) && forall k :: 0 <= k < |w| ==> IsSpace(w[k])
    ensures multiset(w)[c] == 0
  {
    assert c !in w;
  }

  lemma {:induction false} TrimEndKeepsCount(s: string, c: char)
    requires !IsSpace(c)
    ensures multiset(TrimEnd(s))[c] == multiset(s)[c]
    decreases |s|
  {
    if |s| > 0 && IsSpace(s[|s| - 1]) {
      var t := s[..|s| - 1];
      TrimEndKeepsCount(t, c);
      assert TrimEnd(s) == TrimEnd(t);
      assert s == t + [s[|s| - 1]];
      assert multiset(s)[c] == multiset(t)[c] + multiset([s[|s| - 1]])[c];
    }
  }

  /** A document holding any text character does not normalise to the empty
      string. */
  lemma TextSurvivesNormalisation(raw: string, c: char)
    requires c in raw && IsTextChar(c)
    ensures c in Normalise(raw) && |Normalise(raw)| > 0
  {
    NormaliseKeepsText(raw, c);
  }

  lemma {:induction false} SkipNewlinesThenSpaces(s: string)
    ensures SkipRun(SkipRun(s, IsNewline), IsSpace) == SkipRun(s, IsSpace)
    decreases |s|
  {
    if |s| > 0 && IsNewline(s[0]) {
      SkipNewlinesThenSpaces(s[1..]);
    }
  }

  /** Replacing newline runs commutes with skipping a leading whitespace run. */
  lemma {:induction false} SkipSpacesAfterNewlinePass(s: string)
    ensures SkipRun(ReplaceNewlineRuns(s), IsSpace) == ReplaceNewlineRuns(SkipRun(s, IsSpace))
    decreases |s|
  {
    if |s| == 0 {
    } else if IsNewline(s[0]) {
      var t := SkipRun(s, IsNewline);
      var x := ReplaceNewlineRuns(t);
      assert ReplaceNewlineRuns(s) == " " + x;
      SkipLeadingSpace(x);
      SkipSpacesAfterNewlinePass(t);
      SkipNewlinesThenSpaces(s);
    } else if IsSpace(s[0]) {
      var x := ReplaceNewlineRuns(s[1..]);
      assert ReplaceNewlineRuns(s) == [s[0]] + x;
      SkipLeadingChar(s[0], x);
      SkipSpacesAfterNewlinePass(s[1..]);
    }
  }

  lemma SkipLeadingSpace(x: string)
    ensures SkipRun(" " + x, IsSpace) == SkipRun(x, IsSpace)
  {
    assert (" " + x)[1..] == x;
  }

  lemma SkipLeadingChar(c: char, x: string)
    requires IsSpace(c)
    ensures SkipRun([c] + x, IsSpace) == SkipRun(x, IsSpace)
  {
    assert ([c] + x)[1..] == x;
  }

  /** The newline pass (src/App.tsx:40) is absorbed by the whitespace pass that
      follows it (src/App.tsx:41): together they collapse each whitespace run. */
  lemma {:induction false} NewlinePassIsAbsorbed(s: string)
    ensures CollapseWhitespace(ReplaceNewlineRuns(s)) == CollapseWhitespace(s)
    decreases |s|
  {
    if |s| == 0 {
    } else if !IsSpace(s[0]) {
      var x := ReplaceNewlineRuns(s[1..]);
      assert ReplaceNewlineRuns(s) == [s[0]] + x;
      assert ([s[0]] + x)[1..] == x;
      NewlinePassIsAbsorbed(s[1..]);
    } else {
      SkipSpacesAfterNewlinePass(s);
      NewlinePassIsAbsorbed(SkipRun(s, IsSpace));
    }
  }

  /** A document whose text is all whitespace normalises to the empty string. */
  lemma BlankTextNormalisesEmpty(raw: string)
    requires forall k :: 0 <= k < |raw| ==> IsSpace(raw[k])
    ensures Normalise(raw) == ""
  {
    var nl := ReplaceNewlineRuns(raw);
    assert forall k :: 0 <= k < |nl| ==> IsSpace(nl[k]) by {
      forall k | 0 <= k < |nl| ensures IsSpace(nl[k]) {
        assert nl[k] in nl;
      }
    }
    var c := Cleaned(raw);
    var collapsed := CollapseWhitespace(nl);
    assert forall k :: 0 <= k < |collapsed| ==> IsSpace(collapsed[k]) by {
      forall k | 0 <= k < |collapsed| ensures IsSpace(collapsed[k]) {
        assert collapsed[k] in collapsed;
      }
    }
    forall k | 0 <= k < |c| ensures IsSpace(c[k]) {
      assert c[k] in c;
    }
  }

  /** Text in which every class character is a lone space is left as it is. */
  lemma {:induction false} ReplaceRunsFixesCollapsed(s: string, inRun: char -> bool)
    requires forall k :: 0 <= k < |s| && inRun(s[k]) ==> s[k] == ' '
    requires forall k :: 0 <= k < |s| - 1 ==> !(inRun(s[k]) && inRun(s[k + 1]))
    ensures ReplaceRuns(s, inRun) == s
    decreases |s|
  {
    if |s| > 0 {
      ReplaceRunsFixesCollapsed(s[1..], inRun);
      if inRun(s[0]) {
        assert SkipRun(s, inRun) == s[1..] by {
          assert SkipRun(s, inRun) == SkipRun(s[1..], inRun);
        }
      }
      assert s == [s[0]] + s[1..];
    }
  }

  /** Collapsing whitespace twice is the same as collapsing it once. */
  lemma CollapseIsIdempotent(s: string)
    ensures CollapseWhitespace(CollapseWhitespace(s)) == CollapseWhitespace(s)
  {
    ReplaceRunsKeepsText(s, IsSpace);
    ReplaceRunsFixesCollapsed(CollapseWhitespace(s), IsSpace);
  }

  /** Deleting `pat` skips a stretch in which no occurrence of `pat` starts. */
  lemma {:induction false} RemoveAllSkipsClearPrefix(a: string, b: string, pat: string)
    requires |pat| > 0
    requires forall j :: 0 <= j < |a| ==> !OccursAt(a + b, pat, j)
    ensures RemoveAll(a + b, pat) == a + RemoveAll(b, pat)
    decreases |a|
  {
    if |a| > 0 {
      assert !OccursAt(a + b, pat, 0);
      assert (a + b)[1..] == a[1..] + b;
      forall j | 0 <= j < |a| - 1 ensures !OccursAt(a[1..] + b, pat, j) {
        OccursAtShift(a + b, pat, j);
      }
      RemoveAllSkipsClearPrefix(a[1..], b, pat);
      assert a + b == [a[0]] + (a[1..] + b);
    }
  }

  lemma RemoveAllTooShort(s: string, pat: string)
    requires 0 < |pat| && |s| < |pat|
    ensures RemoveAll(s, pat) == s
  {
    RemoveAllAbsent(s, pat);
  }

  /** One left-to-right pass can splice a new closing tag together from the
      pieces around a deleted one. */
  lemma SinglePassCanReformTag()
    ensures RemoveAll("</vari</variant>ant>", VariantClose) == VariantClose
  {
    var a, b := "</vari", "</variant>ant>";
    assert a + b == "</vari</variant>ant>";
    assert RemoveAll(b, VariantClose) == "ant>" by {
      assert VariantClose <= b;
      assert b[|VariantClose|..] == "ant>";
      RemoveAllTooShort("ant>", VariantClose);
    }
    assert forall j :: 0 <= j < |a| ==> !OccursAt(a + b, VariantClose, j) by {
      forall j | 0 <= j < |a| ensures !OccursAt(a + b, VariantClose, j) {
        NoTagAt(a + b, j);
      }
    }
    RemoveAllSkipsClearPrefix(a, b, VariantClose);
    assert RemoveAll(a + b, VariantClose) == a + "ant>";
    assert a + "ant>" == VariantClose;
  }

  lemma NoTagAt(s: string, j: int)
    requires s == "</vari</variant>ant>" && 0 <= j < 6
    ensures !OccursAt(s, VariantClose, j)
  {
    if j == 0 {
      assert s[j..][6] != VariantClose[6];
    } else {
      assert s[j..][0] != VariantClose[0];
    }
  }

  /** Deleting a tag after whitespace was collapsed can leave two spaces in a
      row, so normalised content is not always single-spaced. */
  lemma TagRemovalCanLeaveDoubleSpace()
    ensures Normalise("a </variant> b") == "a  b"
  {
    var x, y := "a </variant> b", "a  b";
    WitnessCleaned(x);
    assert IsTrimmed(y);
    TrimOfTrimmed(y);
    assert Normalise(x) == Trim(y);
  }

  lemma WitnessCleaned(x: string)
    requires x == "a </variant> b"
    ensures Cleaned(x) == "a  b"
  {
    WitnessIsCollapsed(x);
    WitnessLosesTag(x);
  }

  lemma WitnessIsCollapsed(x: string)
    requires x == "a </variant> b"
    ensures CollapseWhitespace(ReplaceNewlineRuns(x)) == x
  {
    forall k | 0 <= k < |x| ensures !IsNewline(x[k]) && (IsSpace(x[k]) ==> k == 1 || k == 12) {
      assert x[k] in "a </vrint>b";
    }
    ReplaceRunsFixesCollapsed(x, IsNewline);
    ReplaceRunsFixesCollapsed(x, IsSpace);
  }

  lemma WitnessLosesTag(x: string)
    requires x == "a </variant> b"
    ensures RemoveAll(RemoveAll(RemoveAll(x, VariantClose), RightClose), QuestionClose) == "a  b"
  {
    var a, b := "a ", "</variant> b";
    assert a + b == x;
    assert !OccursAt(x, VariantClose, 0) by { assert x[0..][0] != VariantClose[0]; }
    assert !OccursAt(x, VariantClose, 1) by { assert x[1..][0] != VariantClose[0]; }
    RemoveAllSkipsClearPrefix(a, b, VariantClose);
    assert VariantClose <= b;
    assert b[|VariantClose|..] == " b";
    RemoveAllTooShort(" b", VariantClose);
    RemoveAllTooShort("a  b", RightClose);
    RemoveAllTooShort("a  b", QuestionClose);
  }
}
