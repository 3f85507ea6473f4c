/**
 * The field validators of the planner. Each fixed regular expression of the
 * `VALIDATORS` table is written out as a recogniser over `string` that
 * follows the expression's structure, and is proved to accept exactly the
 * set of strings the expression describes (stated declaratively, without
 * reference to the recogniser). Character classes follow ECMAScript: `\s`
 * is WhiteSpace plus LineTerminator, `.` is anything but a LineTerminator,
 * `\w` is `[A-Za-z0-9_]`, and a case-insensitive back-reference compares
 * ASCII upper-case forms.
 */
module Validators {
  import opened Common
  import opened Tasks

  // ---------------------------------------------------------------------
  // Character classes

  predicate IsLineTerminator(c: char)
  {
    c == '\n' || c == '\r' || c == '\U{2028}' || c == '\U{2029}'
  }

  /** `\s`: ECMAScript WhiteSpace and LineTerminator code points. */
  predicate IsSpace(c: char)
  {
    || c == '\t' || c == '\U{000B}' || c == '\U{000C}' || c == ' '
    || c == '\U{00A0}' || c == '\U{1680}' || ('\U{2000}' <= c <= '\U{200A}')
    || c == '\U{202F}' || c == '\U{205F}' || c == '\U{3000}' || c == '\U{FEFF}'
    || IsLineTerminator(c)
  }

  /** `\w`. */
  predicate IsWordChar(c: char)
  {
    ('a' <= c <= 'z') || ('A' <= c <= 'Z') || IsDigit(c) || c == '_'
  }

  /** `[A-Za-z]`. */
  predicate IsLetter(c: char)
  {
    ('a' <= c <= 'z') || ('A' <= c <= 'Z')
  }

  /** `[ -]`. */
  predicate IsSeparator(c: char)
  {
    c == ' ' || c == '-'
  }

  // ---------------------------------------------------------------------
  // title: /^\S(?:.*\S)?$/

  predicate MatchesTitle(s: string)
  {
    |s| > 0 && !IsSpace(s[0]) && (|s| == 1 || DotStarNonSpace(s[1..]))
  }

  /** `.*\S$`, as a backtracking matcher decides it. */
  predicate DotStarNonSpace(t: string)
    decreases |t|
  {
    if |t| == 0 then false
    else if |t| == 1 then !IsSpace(t[0])
    else !IsLineTerminator(t[0]) && DotStarNonSpace(t[1..])
  }

  /** The strings the title pattern describes. */
  ghost predicate TitleShape(s: string)
  {
    && |s| > 0
    && !IsSpace(s[0])
    && !IsSpace(s[|s| - 1])
    && forall i :: 0 <= i < |s| ==> !IsLineTerminator(s[i])
  }

  lemma {:induction false} DotStarNonSpaceExactly(t: string)
    ensures DotStarNonSpace(t) <==>
      |t| > 0 && !IsSpace(t[|t| - 1]) && forall i :: 0 <= i < |t| - 1 ==> !IsLineTerminator(t[i])
    decreases |t|
  {
    if |t| > 1 {
      DotStarNonSpaceExactly(t[1..]);
      assert forall i :: 0 < i < |t| - 1 ==> t[i] == t[1..][i - 1];
    }
  }

  /** The title recogniser accepts exactly the strings of `TitleShape`. */
  lemma TitleExactly(s: string)
    ensures MatchesTitle(s) <==> TitleShape(s)
  {
    if |s| > 1 {
      DotStarNonSpaceExactly(s[1..]);
      assert forall i :: 0 < i < |s| ==> s[i] == s[1..][i - 1];
    }
  }

  // ---------------------------------------------------------------------
  // duplicateWord: /\b(\w+)\s+\1\b/i

  function WordEnd(s: string, i: nat): (j: nat)
    requires i <= |s|
    ensures i <= j <= |s|
    decreases |s| - i
  {
    if i < |s| && IsWordChar(s[i]) then WordEnd(s, i + 1) else i
  }

  function SpaceEnd(s: string, i: nat): (j: nat)
    requires i <= |s|
    ensures i <= j <= |s|
    decreases |s| - i
  {
    if i < |s| && IsSpace(s[i]) then SpaceEnd(s, i + 1) else i
  }

  /** A case-insensitive back-reference match of `b` against the captured `a`. */
  predicate SameIgnoringCase(a: string, b: string)
  {
    |a| == |b| && forall k :: 0 <= k < |a| ==> UpperChar(a[k]) == UpperChar(b[k])
  }

  /**
   * The attempt of the expression at position `i`: a word boundary, the
   * word starting there, its run of white space, the same word again and a
   * word boundary.
   */
  predicate DuplicateAt(s: string, i: nat)
    requires i < |s|
  {
    && (i == 0 || !IsWordChar(s[i - 1]))
    && IsWordChar(s[i])
    && var j := WordEnd(s, i);
       var k := SpaceEnd(s, j);
       var e := k + (j - i);
       && k > j && e <= |s|
       && SameIgnoringCase(s[i..j], s[k..e])
       && (e == |s| || !IsWordChar(s[e]))
  }

  /** The unanchored search: some attempt at or after `i` succeeds. */
  predicate DuplicateFrom(s: string, i: nat)
    requires i <= |s|
    decreases |s| - i
  {
    i < |s| && (DuplicateAt(s, i) || DuplicateFrom(s, i + 1))
  }

  predicate HasDuplicateWord(s: string)
  {
    DuplicateFrom(s, 0)
  }

  /**
   * One way the expression can match `s`: group 1 is `s[i..j]`, `\s+` is
   * `s[j..k]` and the back-reference is the same length at `k`.
   */
  ghost predicate IsDuplicateMatch(s: string, i: int, j: int, k: int)
  {
    && 0 <= i < j < k && k + (j - i) <= |s|
    && (i == 0 || !IsWordChar(s[i - 1]))
    && (forall p :: i <= p < j ==> IsWordChar(s[p]))
    && (forall p :: j <= p < k ==> IsSpace(s[p]))
    && SameIgnoringCase(s[i..j], s[k..k + (j - i)])
    && (k + (j - i) == |s| || !IsWordChar(s[k + (j - i)]))
  }

  ghost predicate DuplicateWordSpec(s: string)
  {
    exists i, j, k :: IsDuplicateMatch(s, i, j, k)
  }

  lemma {:induction false} WordEndIsRunEnd(s: string, i: nat, j: nat)
    requires i <= j <= |s|
    requires forall p :: i <= p < j ==> IsWordChar(s[p])
    requires j == |s| || !IsWordChar(s[j])
    ensures WordEnd(s, i) == j
    decreases j - i
  {
    if i < j { WordEndIsRunEnd(s, i + 1, j); }
  }

  lemma {:induction false} SpaceEndIsRunEnd(s: string, i: nat, j: nat)
    requires i <= j <= |s|
    requires forall p :: i <= p < j ==> IsSpace(s[p])
    requires j == |s| || !IsSpace(s[j])
    ensures SpaceEnd(s, i) == j
    decreases j - i
  {
    if i < j { SpaceEndIsRunEnd(s, i + 1, j); }
  }

  lemma {:induction false} WordEndFacts(s: string, i: nat)
    requires i <= |s|
    ensures forall p :: i <= p < WordEnd(s, i) ==> IsWordChar(s[p])
    ensures WordEnd(s, i) == |s| || !IsWordChar(s[WordEnd(s, i)])
    decreases |s| - i
  {
    if i < |s| && IsWordChar(s[i]) { WordEndFacts(s, i + 1); }
  }

  lemma {:induction false} SpaceEndFacts(s: string, i: nat)
    requires i <= |s|
    ensures forall p :: i <= p < SpaceEnd(s, i) ==> IsSpace(s[p])
    ensures SpaceEnd(s, i) == |s| || !IsSpace(s[SpaceEnd(s, i)])
    decreases |s| - i
  {
    if i < |s| && IsSpace(s[i]) { SpaceEndFacts(s, i + 1); }
  }

  lemma {:induction false} DuplicateFromReaches(s: string, i: nat, at: nat)
    requires i <= at < |s| && DuplicateAt(s, at)
    ensures DuplicateFrom(s, i)
    decreases at - i
  {
    if i < at { DuplicateFromReaches(s, i + 1, at); }
  }

  lemma {:induction false} DuplicateFromWitness(s: string, i: nat)
    requires i <= |s| && DuplicateFrom(s, i)
    ensures exists at :: i <= at < |s| && DuplicateAt(s, at)
    decreases |s| - i
  {
    if !DuplicateAt(s, i) { DuplicateFromWitness(s, i + 1); }
  }

  lemma DuplicateWordSound(s: string)
    requires HasDuplicateWord(s)
    ensures DuplicateWordSpec(s)
  {
    DuplicateFromWitness(s, 0);
    var i :| 0 <= i < |s| && DuplicateAt(s, i);
    var j := WordEnd(s, i);
    WordEndFacts(s, i);
    SpaceEndFacts(s, j);
    assert IsDuplicateMatch(s, i, j, SpaceEnd(s, j));
  }

  lemma DuplicateWordComplete(s: string, i: int, j: int, k: int)
    requires IsDuplicateMatch(s, i, j, k)
    ensures HasDuplicateWord(s)
  {
    WordEndIsRunEnd(s, i, j);
    assert IsWordChar(s[k]) by {
      assert UpperChar(s[i..j][0]) == UpperChar(s[k..k + (j - i)][0]);
    }
    SpaceEndIsRunEnd(s, j, k);
    assert DuplicateAt(s, i);
    DuplicateFromReaches(s, 0, i);
  }

  /** The duplicate-word recogniser finds a match exactly when the expression can match. */
  lemma DuplicateWordExactly(s: string)
    ensures HasDuplicateWord(s) <==> DuplicateWordSpec(s)
  {
    if HasDuplicateWord(s) {
      DuplicateWordSound(s);
    }
    if DuplicateWordSpec(s) {
      var i, j, k :| IsDuplicateMatch(s, i, j, k);
      DuplicateWordComplete(s, i, j, k);
    }
  }

  // ---------------------------------------------------------------------
  // duration: /^[1-9]\d*$/

  predicate MatchesDuration(s: string)
  {
    |s| > 0 && '1' <= s[0] <= '9' && DigitRun(s[1..])
  }

  /** `\d*$`. */
  predicate DigitRun(t: string)
    decreases |t|
  {
    t == [] || (IsDigit(t[0]) && DigitRun(t[1..]))
  }

  lemma {:induction false} DigitRunExactly(t: string)
    ensures DigitRun(t) <==> AllDigits(t)
    decreases |t|
  {
    if t != [] {
      DigitRunExactly(t[1..]);
      assert forall i :: 0 < i < |t| ==> t[i] == t[1..][i - 1];
    }
  }

  /** The duration pattern accepts exactly the non-empty digit strings without a leading zero. */
  lemma DurationExactly(s: string)
    ensures MatchesDuration(s) <==> |s| > 0 && s[0] != '0' && AllDigits(s)
  {
    if |s| > 0 {
      DigitRunExactly(s[1..]);
      assert forall i :: 0 < i < |s| ==> s[i] == s[1..][i - 1];
    }
  }

  /** The string of an integral duration passes the duration pattern exactly when it is positive. */
  lemma DurationOfNumber(n: int)
    ensures MatchesDuration(IntToString(n)) <==> n > 0
  {
    if n >= 0 {
      NatToStringShape(n);
      DurationExactly(IntToString(n));
    }
  }

  lemma DurationRejections()
    ensures !MatchesDuration("0") && !MatchesDuration("01") && !MatchesDuration("-5")
    ensures !MatchesDuration("") && MatchesDuration("90")
  {
    assert DigitRun("0"[1..]);
  }

  // ---------------------------------------------------------------------
  // date: /^\d{4}-(0[1-9]|1[0-2])-(0[1-9]|[12]\d|3[01])$/

  predicate MatchesDate(s: string)
  {
    && |s| == 10
    && IsDigit(s[0]) && IsDigit(s[1]) && IsDigit(s[2]) && IsDigit(s[3])
    && s[4] == '-'
    && MonthPart(s[5], s[6])
    && s[7] == '-'
    && DayPart(s[8], s[9])
  }

  /** `0[1-9]|1[0-2]`. */
  predicate MonthPart(a: char, b: char)
  {
    (a == '0' && '1' <= b <= '9') || (a == '1' && '0' <= b <= '2')
  }

  /** `0[1-9]|[12]\d|3[01]`. */
  predicate DayPart(a: char, b: char)
  {
    || (a == '0' && '1' <= b <= '9')
    || ((a == '1' || a == '2') && IsDigit(b))
    || (a == '3' && (b == '0' || b == '1'))
  }

  function DigitValue(c: char): int
  {
    c as int - '0' as int
  }

  /** `YYYY-MM-DD` with a month from 1 to 12 and a day from 1 to 31 (any month). */
  ghost predicate DateShape(s: string)
  {
    && |s| == 10
    && IsDigit(s[0]) && IsDigit(s[1]) && IsDigit(s[2]) && IsDigit(s[3])
    && IsDigit(s[5]) && IsDigit(s[6]) && IsDigit(s[8]) && IsDigit(s[9])
    && s[4] == '-' && s[7] == '-'
    && 1 <= 10 * DigitValue(s[5]) + DigitValue(s[6]) <= 12
    && 1 <= 10 * DigitValue(s[8]) + DigitValue(s[9]) <= 31
  }

  lemma DateExactly(s: string)
    ensures MatchesDate(s) <==> DateShape(s)
  {
  }

  /** There is no per-month day check: 30 February is accepted, month 13 and day 32 are not. */
  lemma DateLeniency()
    ensures MatchesDate("2024-02-30") && MatchesDate("2023-02-29")
    ensures !MatchesDate("2024-13-01") && !MatchesDate("2024-01-32") && !MatchesDate("2024-1-01")
  {
  }

  // ---------------------------------------------------------------------
  // tag: /^[A-Za-z]+(?:[ -][A-Za-z]+)*$/

  /** `[A-Za-z]+(?:[ -][A-Za-z]+)*$` from the start of `s`. */
  predicate MatchesTag(s: string)
    decreases |s|, 1
  {
    |s| > 0 && IsLetter(s[0]) && TagRest(s[1..])
  }

  /** What may follow a letter: more letters, a separator starting a new run, or the end. */
  predicate TagRest(t: string)
    decreases |t|, 0
  {
    || t == []
    || (IsLetter(t[0]) && TagRest(t[1..]))
    || (IsSeparator(t[0]) && MatchesTag(t[1..]))
  }

  /** Letter runs separated by single spaces or hyphens. */
  ghost predicate TagShape(s: string)
  {
    && |s| > 0
    && (forall i :: 0 <= i < |s| ==> IsLetter(s[i]) || IsSeparator(s[i]))
    && IsLetter(s[0]) && IsLetter(s[|s| - 1])
    && (forall i :: 0 <= i < |s| - 1 ==> IsLetter(s[i]) || IsLetter(s[i + 1]))
  }

  /** A letter in front of a tag that starts with a letter gives a tag, and only then. */
  lemma TagShapeLetterCons(c: char, t: string)
    requires IsLetter(c) && t != [] && IsLetter(t[0])
    ensures TagShape([c] + t) <==> TagShape(t)
  {
    var s := [c] + t;
    assert forall i :: 0 < i < |s| ==> s[i] == t[i - 1];
    if TagShape(t) {
      forall i | 0 <= i < |s| - 1 ensures IsLetter(s[i]) || IsLetter(s[i + 1]) {
        if i > 0 { assert s[i] == t[i - 1] && s[i + 1] == t[i]; }
      }
    }
    if TagShape(s) {
      forall i | 0 <= i < |t| - 1 ensures IsLetter(t[i]) || IsLetter(t[i + 1]) {
        assert s[i + 1] == t[i] && s[i + 2] == t[i + 1];
      }
      forall i | 0 <= i < |t| ensures IsLetter(t[i]) || IsSeparator(t[i]) {
        assert s[i + 1] == t[i];
      }
      assert s[|s| - 1] == t[|t| - 1];
    }
  }

  /** A letter, a separator, then a tag gives a tag, and a separator must be followed by one. */
  lemma TagShapeSeparatorCons(c: char, t: string)
    requires IsLetter(c) && t != [] && IsSeparator(t[0])
    ensures TagShape([c] + t) <==> |t| > 1 && IsLetter(t[1]) && TagShape(t[1..])
  {
    var s := [c] + t;
    var u := t[1..];
    assert forall i :: 1 < i < |s| ==> s[i] == u[i - 2];
    assert s[1] == t[0];
    if |t| > 1 && IsLetter(t[1]) && TagShape(u) {
      forall i | 0 <= i < |s| - 1 ensures IsLetter(s[i]) || IsLetter(s[i + 1]) {
        if i > 1 { assert s[i] == u[i - 2] && s[i + 1] == u[i - 1]; }
      }
      forall i | 0 <= i < |s| ensures IsLetter(s[i]) || IsSeparator(s[i]) {
        if i > 1 { assert s[i] == u[i - 2]; }
      }
    }
    if TagShape(s) {
      assert |s| > 2 by { assert !IsLetter(s[1]); }
      assert IsLetter(s[2]) by { assert IsLetter(s[1]) || IsLetter(s[2]); }
      forall i | 0 <= i < |u| - 1 ensures IsLetter(u[i]) || IsLetter(u[i + 1]) {
        assert s[i + 2] == u[i] && s[i + 3] == u[i + 1];
      }
      forall i | 0 <= i < |u| ensures IsLetter(u[i]) || IsSeparator(u[i]) {
        assert s[i + 2] == u[i];
      }
    }
  }

  /** `TagRest` accepts exactly the strings that extend a letter to a tag shape. */
  lemma {:induction false} TagRestExactly(t: string, c: char)
    requires IsLetter(c)
    ensures TagRest(t) <==> TagShape([c] + t)
    decreases |t|
  {
    if t == [] {
      assert [c] + t == [c];
    } else {
      var u := t[1..];
      assert [t[0]] + u == t;
      if IsLetter(t[0]) {
        TagRestExactly(u, t[0]);
        TagShapeLetterCons(c, t);
      } else if IsSeparator(t[0]) {
        TagShapeSeparatorCons(c, t);
        if u != [] && IsLetter(u[0]) {
          TagRestExactly(u[1..], u[0]);
          assert [u[0]] + u[1..] == u;
        }
      } else {
        var s := [c] + t;
        assert s[1] == t[0];
      }
    }
  }

  /** The tag recogniser accepts exactly letter runs joined by single spaces or hyphens. */
  lemma TagExactly(s: string)
    ensures MatchesTag(s) <==> TagShape(s)
  {
    if |s| > 0 && IsLetter(s[0]) {
      TagRestExactly(s[1..], s[0]);
      assert [s[0]] + s[1..] == s;
    }
  }

  lemma TagExamples()
    ensures MatchesTag("Art") && MatchesTag("Self-Care") && MatchesTag("Go Run")
    ensures !MatchesTag("Art ") && !MatchesTag("-Art") && !MatchesTag("a--b")
    ensures !MatchesTag("a  b") && !MatchesTag("Gym2") && !MatchesTag("")
  {
    TagExactly("Art");
    TagExactly("Self-Care");
    TagExactly("Go Run");
    TagExactly("Art ");
    TagExactly("-Art");
    TagExactly("a--b");
    TagExactly("a  b");
    TagExactly("Gym2");
  }

  // ---------------------------------------------------------------------
  // The search patterns of the table

  /** tagSearch: /^@(\w+)/. */
  predicate MatchesTagSearch(s: string)
  {
    |s| >= 2 && s[0] == '@' && IsWordChar(s[1])
  }

  predicate WordBoundaryBefore(s: string, i: nat)
    requires i < |s|
  {
    i == 0 || !IsWordChar(s[i - 1])
  }

  predicate WordBoundaryAt(s: string, e: nat)
    requires 0 < e <= |s|
  {
    e == |s| || !IsWordChar(s[e])
  }

  /** timePattern /\b\d{1,2}:\d{2}\b/ attempted at `i`, with two and then one hour digit. */
  predicate TimeAt(s: string, i: nat)
    requires i < |s|
  {
    && WordBoundaryBefore(s, i)
    && IsDigit(s[i])
    && (|| (i + 5 <= |s| && IsDigit(s[i + 1]) && s[i + 2] == ':' && IsDigit(s[i + 3])
            && IsDigit(s[i + 4]) && WordBoundaryAt(s, i + 5))
        || (i + 4 <= |s| && s[i + 1] == ':' && IsDigit(s[i + 2]) && IsDigit(s[i + 3])
            && WordBoundaryAt(s, i + 4)))
  }

  predicate HasTimePattern(s: string)
  {
    exists i :: 0 <= i < |s| && TimeAt(s, i)
  }

  /** `w` occurs in `s` at `i`, ignoring ASCII case. */
  predicate OccursAtIgnoringCase(s: string, w: string, i: nat)
  {
    i + |w| <= |s| && SameIgnoringCase(s[i..i + |w|], w)
  }

  /** studyKeywords: /(study|homework|assignment|exam|quiz)/i. */
  predicate HasStudyKeyword(s: string)
  {
    exists i :: 0 <= i <= |s| &&
      (|| OccursAtIgnoringCase(s, "study", i) || OccursAtIgnoringCase(s, "homework", i)
       || OccursAtIgnoringCase(s, "assignment", i) || OccursAtIgnoringCase(s, "exam", i)
       || OccursAtIgnoringCase(s, "quiz", i))
  }

  /** A time needs a colon with digits on both sides; the keyword search ignores case. */
  lemma SearchPatternExamples()
    ensures MatchesTagSearch("@gym") && !MatchesTagSearch("gym") && !MatchesTagSearch("@")
    ensures HasTimePattern("at 9:30") && HasTimePattern("10:15")
    ensures !HasTimePattern("930") && !HasTimePattern("a9:30")
    ensures HasStudyKeyword("EXAM prep") && !HasStudyKeyword("gym")
  {
    assert TimeAt("at 9:30", 3);
    assert TimeAt("10:15", 0);
    assert OccursAtIgnoringCase("EXAM prep", "exam", 0) by {
      assert "EXAM prep"[0..4] == "EXAM";
    }
  }

  /** A time the pattern finds at `i` has its colon after one or two hour digits, followed by two digits. */
  lemma TimeHasColon(s: string, i: nat)
    requires i < |s| && TimeAt(s, i)
    ensures var c := if s[i + 1] == ':' then i + 1 else i + 2;
      c + 2 < |s| && s[c] == ':' && IsDigit(s[c - 1]) && IsDigit(s[c + 1]) && IsDigit(s[c + 2])
  {
  }

  // ---------------------------------------------------------------------
  // validateField and validateTask

  /** The keys of `VALIDATORS`. */
  predicate HasValidator(field: string)
  {
    field in ["title", "duration", "date", "tag", "duplicateWord", "tagSearch", "timePattern", "studyKeywords"]
  }

  /** `VALIDATORS[field].test(value)` for a field that has an entry other than `title`. */
  predicate TestValidator(field: string, value: string)
  {
    if field == "duration" then MatchesDuration(value)
    else if field == "date" then MatchesDate(value)
    else if field == "tag" then MatchesTag(value)
    else if field == "duplicateWord" then HasDuplicateWord(value)
    else if field == "tagSearch" then MatchesTagSearch(value)
    else if field == "timePattern" then HasTimePattern(value)
    else HasStudyKeyword(value)
  }

  /**
   * `validateField`: an empty value fails; a title must have the title shape
   * and no repeated word; a field with an entry in the table must pass it;
   * any other field passes.
   */
  function ValidateField(field: string, value: string): (ok: bool)
    ensures value == "" ==> !ok
    ensures value != "" && !HasValidator(field) ==> ok
    ensures field == "title" ==> (ok <==> TitleShape(value) && !DuplicateWordSpec(value))
    ensures field == "duration" ==> (ok <==> |value| > 0 && value[0] != '0' && AllDigits(value))
    ensures field == "date" ==> (ok <==> DateShape(value))
    ensures field == "tag" ==> (ok <==> TagShape(value))
  {
    TitleExactly(value);
    DuplicateWordExactly(value);
    DurationExactly(value);
    DateExactly(value);
    TagExactly(value);
    if value == "" then false
    else if field == "title" then MatchesTitle(value) && !HasDuplicateWord(value)
    else if HasValidator(field) then TestValidator(field, value)
    else true
  }

  /** The form's `dueDate` input has no entry of its own, so any non-empty value passes. */
  lemma DueDateFieldIsUnchecked(value: string)
    requires value != ""
    ensures ValidateField("dueDate", value)
  {
    assert !HasValidator("dueDate");
  }

  /** The result of `validateTask`: a map from field name to message, and whether it is empty. */
  datatype TaskCheck = TaskCheck(valid: bool, errors: map<string, string>)

  const TitleMessage := "Invalid title format or contains duplicate words"
  const DurationMessage := "Duration must be a positive integer"
  const DueDateMessage := "Invalid date format (use YYYY-MM-DD)"
  const TagMessage := "Invalid tag format"

  function ValidateTask(task: Draft): (r: TaskCheck)
    ensures r.valid <==> r.errors == map[]
    ensures r.errors.Keys <= {"title", "duration", "dueDate", "tag"}
    ensures "title" in r.errors <==> !ValidateField("title", task.title)
    ensures "duration" in r.errors <==> task.duration <= 0
    ensures "dueDate" in r.errors <==> !DateShape(task.dueDate)
    ensures "tag" in r.errors <==> !TagShape(task.tag)
    ensures "title" in r.errors ==> r.errors["title"] == TitleMessage
    ensures "duration" in r.errors ==> r.errors["duration"] == DurationMessage
    ensures "dueDate" in r.errors ==> r.errors["dueDate"] == DueDateMessage
    ensures "tag" in r.errors ==> r.errors["tag"] == TagMessage
  {
    DurationOfNumber(task.duration);
    NatToStringShape(if task.duration < 0 then -task.duration else task.duration);
    var e0: map<string, string> := map[];
    var e1 := if !ValidateField("title", task.title) then e0["title" := TitleMessage] else e0;
    var e2 := if !ValidateField("duration", IntToString(task.duration)) then e1["duration" := DurationMessage] else e1;
    var e3 := if !ValidateField("date", task.dueDate) then e2["dueDate" := DueDateMessage] else e2;
    var e4 := if !ValidateField("tag", task.tag) then e3["tag" := TagMessage] else e3;
    TaskCheck(|e4| == 0, e4)
  }
}
