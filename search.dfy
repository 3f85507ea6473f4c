/**
 * Regular-expression search over the task list (scripts/search.js).
 *
 * The regular-expression engine itself is not modelled: a compiled
 * expression is a `Matcher`, whose `exec(s, p)` reports the leftmost match
 * in `s` starting at or after position `p`, no match, or an exception
 * thrown while matching. Its `global` component is the `g` flag, which
 * makes `test` and `replace` work from and update `lastIndex`.
 */
module Search {
  import opened Common
  import opened Tasks

  /** What one call of the engine's matcher reports: a span `[start, end)`, nothing, or an exception. */
  datatype Scan = NoMatch | Found(start: nat, end: nat) | Fault

  /** A compiled regular expression. */
  datatype Matcher = Matcher(exec: (string, nat) -> Scan, global: bool)

  /** The engine only reports spans inside the searched text that start at or after the start position. */
  ghost predicate Sound(m: Matcher)
  {
    forall s: string, p: nat {:trigger m.exec(s, p)} ::
      p <= |s| && m.exec(s, p).Found? ==> p <= m.exec(s, p).start <= m.exec(s, p).end <= |s|
  }

  /** The engine never throws. */
  ghost predicate NeverFaults(m: Matcher)
  {
    forall s: string, p: nat {:trigger m.exec(s, p)} :: m.exec(s, p) != Fault
  }

  /**
   * `compileRegex(input, flags)`: no expression for an empty input, and
   * otherwise whatever `new RegExp(input, flags)` yields, with a syntax
   * error (reported by `construct` as `None`) caught and turned into no
   * expression as well.
   */
  function CompileRegex(input: string, flags: string, construct: (string, string) -> Option<Matcher>): (r: Option<Matcher>)
    ensures input == "" ==> r == None
    ensures input != "" ==> r == construct(input, flags)
  {
    if input == "" then None else construct(input, flags)
  }

  /** `compileRegex` never throws, and an empty search box never yields an expression, whatever the engine. */
  lemma EmptyInputCompilesToNothing(flags: string, construct: (string, string) -> Option<Matcher>)
    ensures CompileRegex("", flags, construct) == None
  {
  }

  // ---------------------------------------------------------------------
  // Highlighting

  /** A piece of highlighted text: kept as it was, or wrapped in a `<mark>` element. */
  datatype Piece = Plain(text: string) | Marked(text: string)

  /** The HTML the pieces render to. */
  function Render(ps: seq<Piece>): string
  {
    if ps == [] then ""
    else
      var p := ps[|ps| - 1];
      Render(ps[..|ps| - 1]) + (if p.Marked? then "<mark>" + p.text + "</mark>" else p.text)
  }

  /** The text of the pieces with the inserted markers left out. */
  function Unmarked(ps: seq<Piece>): string
  {
    if ps == [] then "" else Unmarked(ps[..|ps| - 1]) + ps[|ps| - 1].text
  }

  lemma {:induction false} UnmarkedAppend(ps: seq<Piece>, qs: seq<Piece>)
    ensures Unmarked(ps + qs) == Unmarked(ps) + Unmarked(qs)
    decreases |qs|
  {
    if qs == [] {
      assert ps + qs == ps;
    } else {
      var rs := ps + qs;
      assert rs[..|rs| - 1] == ps + qs[..|qs| - 1];
      UnmarkedAppend(ps, qs[..|qs| - 1]);
    }
  }

  lemma UnmarkedPair(p: Piece, q: Piece)
    ensures Unmarked([p, q]) == p.text + q.text
  {
    assert [p, q][..1] == [p];
    assert [p][..0] == [];
    assert Unmarked([p]) == p.text by {
      assert Unmarked([p]) == Unmarked([]) + p.text;
    }
  }

  /** A match the engine reported: the span `[start, end)` of the searched text. */
  datatype Span = Span(start: nat, end: nat)

  /** Spans inside `[lo, hi]`, each starting no earlier than the previous one ends. */
  predicate InOrderWithin(sp: seq<Span>, lo: nat, hi: nat)
  {
    forall i :: 0 <= i < |sp| ==>
      && lo <= sp[i].start <= sp[i].end <= hi
      && (i + 1 < |sp| ==> sp[i].end <= sp[i + 1].start)
  }

  /**
   * The matches a global expression finds from `lastIndex` on, as the
   * scan of `replace` collects them: each `exec` starts where the previous
   * match ended, one position further after an empty match, until nothing
   * is found. `None`: one of the `exec` calls threw.
   */
  function Spans(s: string, m: Matcher, lastIndex: nat): (r: Option<seq<Span>>)
    requires Sound(m)
    ensures r.Some? ==> InOrderWithin(r.value, lastIndex, |s|)
    ensures lastIndex <= |s| && m.exec(s, lastIndex) == Fault ==> r == None
    ensures lastIndex <= |s| && m.exec(s, lastIndex).Found? && r.Some? ==>
      r.value != [] && r.value[0] == Span(m.exec(s, lastIndex).start, m.exec(s, lastIndex).end)
    ensures (lastIndex > |s| || m.exec(s, lastIndex) == NoMatch) ==> r == Some([])
    decreases |s| + 1 - lastIndex
  {
    if lastIndex > |s| then Some([])
    else
      match m.exec(s, lastIndex)
      case NoMatch => Some([])
      case Fault => None
      case Found(a, b) =>
        var rest := Spans(s, m, if a == b then b + 1 else b);
        if rest.None? then None
        else
          var sp := [Span(a, b)] + rest.value;
          assert forall i :: 1 <= i < |sp| ==> sp[i] == rest.value[i - 1];
          Some(sp)
  }

  /** After a match, the scan fails exactly when the rest of it fails. */
  lemma SpansFailLater(s: string, m: Matcher, lastIndex: nat)
    requires Sound(m) && lastIndex <= |s| && m.exec(s, lastIndex).Found?
    ensures var a, b := m.exec(s, lastIndex).start, m.exec(s, lastIndex).end;
      Spans(s, m, lastIndex).None? <==> Spans(s, m, if a == b then b + 1 else b).None?
  {
  }

  /** The matched texts of the spans, in order. */
  function SpanTexts(s: string, sp: seq<Span>): (ts: seq<string>)
    requires forall i :: 0 <= i < |sp| ==> sp[i].start <= sp[i].end <= |s|
    ensures |ts| == |sp|
  {
    seq(|sp|, i requires 0 <= i < |sp| => s[sp[i].start..sp[i].end])
  }

  /**
   * The pieces a replacement of the spans `sp` gives, read off the spans
   * alone: the text from `next` to the first span, that span marked, and so
   * on, then the rest of the text.
   */
  function Interleave(s: string, sp: seq<Span>, next: nat): seq<Piece>
    requires next <= |s| && InOrderWithin(sp, 0, |s|) && (sp != [] ==> next <= sp[0].start)
    decreases |sp|
  {
    if sp == [] then [Plain(s[next..])]
    else
      assert InOrderWithin(sp[1..], 0, |s|) by {
        assert forall i :: 0 <= i < |sp| - 1 ==> sp[1..][i] == sp[i + 1];
      }
      [Plain(s[next..sp[0].start]), Marked(s[sp[0].start..sp[0].end])] + Interleave(s, sp[1..], sp[0].end)
  }

  /** A match at `[2, 3)` of `xax` is marked where it is: `xa`, then `x` marked, then nothing. */
  lemma InterleaveMarksInPlace()
    ensures Interleave("xax", [Span(2, 3)], 0) == [Plain("xa"), Marked("x"), Plain("")]
  {
    var s := "xax";
    assert [Span(2, 3)][1..] == [];
    assert s[0..2] == "xa" && s[2..3] == "x" && s[3..] == "";
  }

  /** The texts of the marked pieces, in order. */
  function MarkedTexts(ps: seq<Piece>): seq<string>
  {
    if ps == [] then [] else (if ps[0].Marked? then [ps[0].text] else []) + MarkedTexts(ps[1..])
  }

  lemma MarkedTextsOfMatch(gap: string, hit: string, rest: seq<Piece>)
    ensures MarkedTexts([Plain(gap), Marked(hit)] + rest) == [hit] + MarkedTexts(rest)
  {
    var ps := [Plain(gap), Marked(hit)] + rest;
    assert ps[1..] == [Marked(hit)] + rest;
    assert ([Marked(hit)] + rest)[1..] == rest;
  }

  /** After a match at `lastIndex`, the matched texts are that match's text and those of the rest of the scan. */
  lemma SpanTextsOfMatch(s: string, m: Matcher, lastIndex: nat)
    requires Sound(m) && lastIndex <= |s| && m.exec(s, lastIndex).Found?
    requires Spans(s, m, lastIndex).Some?
    ensures var a, b := m.exec(s, lastIndex).start, m.exec(s, lastIndex).end;
      && Spans(s, m, if a == b then b + 1 else b).Some?
      && SpanTexts(s, Spans(s, m, lastIndex).value)
         == [s[a..b]] + SpanTexts(s, Spans(s, m, if a == b then b + 1 else b).value)
  {
    var a, b := m.exec(s, lastIndex).start, m.exec(s, lastIndex).end;
    var tail := Spans(s, m, if a == b then b + 1 else b).value;
    assert Spans(s, m, lastIndex).value == [Span(a, b)] + tail;
    SpanTextsCons(s, Span(a, b), tail);
  }

  lemma SpanTextsCons(s: string, x: Span, tail: seq<Span>)
    requires x.start <= x.end <= |s|
    requires forall i :: 0 <= i < |tail| ==> tail[i].start <= tail[i].end <= |s|
    ensures SpanTexts(s, [x] + tail) == [s[x.start..x.end]] + SpanTexts(s, tail)
  {
    var sp := [x] + tail;
    assert forall i :: 1 <= i < |sp| ==> sp[i] == tail[i - 1];
  }

  /**
   * The pieces `replace` builds with a global expression: it starts at
   * `lastIndex` 0 and after each match continues from the match's end, one
   * position further when the match was empty. `next` is where the
   * not-yet-copied text starts. `None`: the engine threw.
   */
  function MarkAll(s: string, m: Matcher, lastIndex: nat, next: nat): (r: Option<seq<Piece>>)
    requires Sound(m) && next <= lastIndex && next <= |s|
    ensures r.Some? ==> Unmarked(r.value) == s[next..]
    decreases |s| + 1 - lastIndex
  {
    if lastIndex > |s| then Some([Plain(s[next..])])
    else
      match m.exec(s, lastIndex)
      case NoMatch => Some([Plain(s[next..])])
      case Fault => None
      case Found(a, b) =>
        var rest := MarkAll(s, m, if a == b then b + 1 else b, b);
        if rest.None? then None
        else
          UnmarkedOfMatch(s, next, a, b, rest.value);
          Some([Plain(s[next..a]), Marked(s[a..b])] + rest.value)
  }

  /** The text before a match, the match and the pieces after it give back the text from `next` on. */
  lemma UnmarkedOfMatch(s: string, next: nat, a: nat, b: nat, rest: seq<Piece>)
    requires next <= a <= b <= |s| && Unmarked(rest) == s[b..]
    ensures Unmarked([Plain(s[next..a]), Marked(s[a..b])] + rest) == s[next..]
  {
    var head := [Plain(s[next..a]), Marked(s[a..b])];
    UnmarkedAppend(head, rest);
    UnmarkedPair(head[0], head[1]);
    assert s[next..] == s[next..a] + s[a..b] + s[b..];
  }

  /**
   * The pieces follow the scan of matches: they fail to exist exactly when
   * one of its `exec` calls throws, and the marked pieces are, in order,
   * the texts of its matches.
   */
  lemma {:induction false} MarkAllMarksSpans(s: string, m: Matcher, lastIndex: nat, next: nat)
    requires Sound(m) && next <= lastIndex && next <= |s|
    ensures MarkAll(s, m, lastIndex, next).None? <==> Spans(s, m, lastIndex).None?
    ensures MarkAll(s, m, lastIndex, next).Some? ==>
      MarkedTexts(MarkAll(s, m, lastIndex, next).value) == SpanTexts(s, Spans(s, m, lastIndex).value)
    decreases |s| + 1 - lastIndex
  {
    if lastIndex <= |s| && m.exec(s, lastIndex).Found? {
      var a, b := m.exec(s, lastIndex).start, m.exec(s, lastIndex).end;
      var li := if a == b then b + 1 else b;
      MarkAllMarksSpans(s, m, li, b);
      SpansFailLater(s, m, lastIndex);
      if MarkAll(s, m, lastIndex, next).Some? {
        var rest := MarkAll(s, m, li, b).value;
        assert MarkAll(s, m, lastIndex, next).value == [Plain(s[next..a]), Marked(s[a..b])] + rest;
        MarkedTextsOfMatch(s[next..a], s[a..b], rest);
        SpanTextsOfMatch(s, m, lastIndex);
      }
    }
  }

  /** The pieces of the replace scan are the interleaving of the text with the spans of the scan of matches. */
  lemma {:induction false} MarkAllInterleavesSpans(s: string, m: Matcher, lastIndex: nat, next: nat)
    requires Sound(m) && next <= lastIndex && next <= |s|
    ensures MarkAll(s, m, lastIndex, next).Some? ==>
      && Spans(s, m, lastIndex).Some?
      && MarkAll(s, m, lastIndex, next).value == Interleave(s, Spans(s, m, lastIndex).value, next)
    decreases |s| + 1 - lastIndex
  {
    MarkAllMarksSpans(s, m, lastIndex, next);
    if lastIndex <= |s| && m.exec(s, lastIndex).Found? {
      var a, b := m.exec(s, lastIndex).start, m.exec(s, lastIndex).end;
      var li := if a == b then b + 1 else b;
      MarkAllInterleavesSpans(s, m, li, b);
      if MarkAll(s, m, lastIndex, next).Some? {
        SpansFailLater(s, m, lastIndex);
        var tail := Spans(s, m, li).value;
        var sp := Spans(s, m, lastIndex).value;
        assert sp == [Span(a, b)] + tail;
        assert sp[1..] == tail;
      }
    }
  }

  /** The pieces `replace` builds: every match marked for a global expression, the first one otherwise. */
  function Marks(s: string, m: Matcher): (r: Option<seq<Piece>>)
    requires Sound(m)
    ensures r.Some? ==> Unmarked(r.value) == s
    ensures m.exec(s, 0) == NoMatch ==> r == Some([Plain(s)])
    ensures m.exec(s, 0) == Fault ==> r == None
    ensures !m.global && m.exec(s, 0).Found? ==>
      var a, b := m.exec(s, 0).start, m.exec(s, 0).end;
      r == Some([Plain(s[..a]), Marked(s[a..b]), Plain(s[b..])])
    ensures m.global ==> (r.None? <==> Spans(s, m, 0).None?)
    ensures m.global && r.Some? ==> MarkedTexts(r.value) == SpanTexts(s, Spans(s, m, 0).value)
    ensures m.global && r.Some? ==> r.value == Interleave(s, Spans(s, m, 0).value, 0)
  {
    MarkAllMarksSpans(s, m, 0, 0);
    MarkAllInterleavesSpans(s, m, 0, 0);
    if m.global then MarkAll(s, m, 0, 0)
    else
      match m.exec(s, 0)
      case NoMatch => Some([Plain(s)])
      case Fault => None
      case Found(a, b) =>
        var ps := [Plain(s[..a]), Marked(s[a..b]), Plain(s[b..])];
        UnmarkedPair(ps[0], ps[1]);
        assert ps[..2] == [ps[0], ps[1]];
        assert s == s[..a] + s[a..b] + s[b..];
        Some(ps)
  }

  /**
   * `highlight(text, regex)`: a non-string or a missing expression gives
   * the text back; otherwise every match (the first, without `g`) is
   * wrapped in `<mark>`, and an exception thrown while matching gives the
   * text back unchanged.
   */
  function Highlight(text: Json, m: Option<Matcher>): (r: Json)
    requires m.Some? ==> Sound(m.value)
    ensures m.None? || !text.JString? ==> r == text
    ensures m.Some? && text.JString? ==>
      exists ps :: Unmarked(ps) == text.s && r == JString(Render(ps))
    ensures m.Some? && text.JString? && !m.value.exec(text.s, 0).Found? ==> r == text
    ensures m.Some? && text.JString? && Marks(text.s, m.value).None? ==> r == text
    ensures m.Some? && text.JString? && Marks(text.s, m.value).Some? ==>
      r == JString(Render(Marks(text.s, m.value).value))
  {
    if m.None? || !text.JString? then text
    else
      match Marks(text.s, m.value)
      case None =>
        assert Render([Plain(text.s)]) == text.s;
        assert Unmarked([Plain(text.s)]) == text.s;
        text
      case Some(ps) =>
        assert ps == [Plain(text.s)] ==> Render(ps) == text.s;
        JString(Render(ps))
  }

  /** Removing the inserted `<mark>` elements from a highlighted string gives the original string back. */
  lemma HighlightKeepsText(s: string, m: Matcher)
    requires Sound(m)
    ensures Highlight(JString(s), Some(m)).JString?
    ensures exists ps :: Unmarked(ps) == s && Highlight(JString(s), Some(m)).s == Render(ps)
  {
  }

  // ---------------------------------------------------------------------
  // Searching

  /** The outcome of one `regex.test(s)`: true, false, or an exception. */
  datatype Verdict = Hit | Miss | Threw

  /** `test` as if it always started at position 0: what `test` does for an expression without `g`. */
  function TestFromStart(m: Matcher, s: string): Verdict
  {
    match m.exec(s, 0)
    case Found(_, _) => Hit
    case NoMatch => Miss
    case Fault => Threw
  }

  /** The strings the filter tests, in order: title, tag, duration, due date and a non-empty priority. */
  function SearchFields(t: Task): seq<string>
  {
    [t.title, t.tag, IntToString(t.duration), t.dueDate]
      + (if t.priority.Some? && t.priority.value != "" then [t.priority.value] else [])
  }

  /** Field `i` is the first whose `test` does not come back false. */
  predicate DecidesAt(m: Matcher, fs: seq<string>, i: int)
    requires 0 <= i < |fs|
  {
    TestFromStart(m, fs[i]) != Miss && forall j :: 0 <= j < i ==> TestFromStart(m, fs[j]) == Miss
  }

  /** A chain of `||`: the first field the expression matches decides, and an exception ends the chain. */
  function AnyHit(m: Matcher, fs: seq<string>): (v: Verdict)
    ensures v == Hit ==> exists i :: 0 <= i < |fs| && TestFromStart(m, fs[i]) == Hit
    ensures v == Miss <==> forall i :: 0 <= i < |fs| ==> TestFromStart(m, fs[i]) == Miss
    ensures v != Miss ==> exists i :: 0 <= i < |fs| && DecidesAt(m, fs, i) && TestFromStart(m, fs[i]) == v
  {
    if fs == [] then Miss
    else
      match TestFromStart(m, fs[0])
      case Hit =>
        assert DecidesAt(m, fs, 0);
        Hit
      case Threw =>
        assert DecidesAt(m, fs, 0);
        Threw
      case Miss =>
        var v := AnyHit(m, fs[1..]);
        assert forall i :: 1 <= i < |fs| ==> fs[i] == fs[1..][i - 1];
        if v != Miss then
          var i :| 0 <= i < |fs[1..]| && DecidesAt(m, fs[1..], i) && TestFromStart(m, fs[1..][i]) == v;
          assert DecidesAt(m, fs, i + 1);
          v
        else v
  }

  function TaskVerdict(m: Matcher, t: Task): Verdict
  {
    AnyHit(m, SearchFields(t))
  }

  /** For an engine that never throws, a task is kept exactly when one of its searched fields matches. */
  lemma TaskVerdictOfTotalEngine(m: Matcher, t: Task)
    requires NeverFaults(m)
    ensures TaskVerdict(m, t) != Threw
    ensures TaskVerdict(m, t) == Hit <==>
      || TestFromStart(m, t.title) == Hit
      || TestFromStart(m, t.tag) == Hit
      || TestFromStart(m, IntToString(t.duration)) == Hit
      || TestFromStart(m, t.dueDate) == Hit
      || (t.priority.Some? && t.priority.value != "" && TestFromStart(m, t.priority.value) == Hit)
  {
    var fs := SearchFields(t);
    forall i | 0 <= i < |fs| ensures TestFromStart(m, fs[i]) != Threw {
      assert m.exec(fs[i], 0) != Fault;
    }
    NoThrowVerdict(m, fs);
    var hasPriority := t.priority.Some? && t.priority.value != "";
    assert fs[0] == t.title && fs[1] == t.tag && fs[2] == IntToString(t.duration) && fs[3] == t.dueDate;
    assert |fs| == if hasPriority then 5 else 4;
    assert hasPriority ==> fs[4] == t.priority.value;
    if exists i :: 0 <= i < |fs| && TestFromStart(m, fs[i]) == Hit {
      var i :| 0 <= i < |fs| && TestFromStart(m, fs[i]) == Hit;
      assert AnyHit(m, fs) != Miss;
    }
  }

  lemma {:induction false} NoThrowVerdict(m: Matcher, fs: seq<string>)
    requires forall i :: 0 <= i < |fs| ==> TestFromStart(m, fs[i]) != Threw
    ensures AnyHit(m, fs) != Threw
    decreases |fs|
  {
    if fs != [] && TestFromStart(m, fs[0]) == Miss {
      assert forall i :: 1 <= i < |fs| ==> fs[i] == fs[1..][i - 1];
      NoThrowVerdict(m, fs[1..]);
    }
  }

  /** The filter's callback, for an expression whose `test` always starts at position 0. */
  function Keeps(m: Matcher): Task -> bool
  {
    (t: Task) => TaskVerdict(m, t) == Hit
  }

  /**
   * `searchTasks(tasks, regex)` for an expression whose `test` always
   * starts at position 0. `None`: an exception escaped the filter.
   */
  function SearchTasks(tasks: seq<Task>, m: Option<Matcher>): (r: Option<seq<Task>>)
    ensures m.None? ==> r == Some(tasks)
    ensures m.Some? ==> (r.None? <==> AnyThrows(m.value, tasks))
    ensures r.Some? ==> IsSubsequence(r.value, tasks)
    ensures m.Some? && r.Some? ==> forall t :: t in r.value <==> t in tasks && TaskVerdict(m.value, t) == Hit
    ensures m.Some? && r.Some? ==> forall t ::
      multiset(r.value)[t] == if TaskVerdict(m.value, t) == Hit then multiset(tasks)[t] else 0
  {
    if m.None? then
      IsSubsequenceReflexive(tasks);
      Some(tasks)
    else if AnyThrows(m.value, tasks) then None
    else
      FilterIsSubsequence(tasks, Keeps(m.value));
      forall t ensures multiset(Filter(tasks, Keeps(m.value)))[t] ==
        if TaskVerdict(m.value, t) == Hit then multiset(tasks)[t] else 0
      {
        FilterMultiset(tasks, Keeps(m.value), t);
      }
      Some(Filter(tasks, Keeps(m.value)))
  }

  // ---------------------------------------------------------------------
  // The filter as written, with a global expression

  /**
   * `regex.test(s)` of an expression whose `lastIndex` is `lastIndex`:
   * the verdict and the new `lastIndex`. Without `g` the search starts at
   * 0 and `lastIndex` is left alone; with `g` it starts at `lastIndex`,
   * which then moves to the end of the match, or back to 0 on a failure.
   */
  function Test(m: Matcher, s: string, lastIndex: nat): (Verdict, nat)
  {
    if !m.global then (TestFromStart(m, s), lastIndex)
    else if lastIndex > |s| then (Miss, 0)
    else
      match m.exec(s, lastIndex)
      case Found(_, e) => (Hit, e)
      case NoMatch => (Miss, 0)
      case Fault => (Threw, lastIndex)
  }

  /** The `||` chain over the fields with the `lastIndex` threaded through every `test`. */
  function AnyHitFrom(m: Matcher, fs: seq<string>, lastIndex: nat): (Verdict, nat)
  {
    if fs == [] then (Miss, lastIndex)
    else
      var (v, li) := Test(m, fs[0], lastIndex);
      if v == Miss then AnyHitFrom(m, fs[1..], li) else (v, li)
  }

  /**
   * `searchTasks` as written: the filter's callback calls `test` on one
   * shared expression object. Whatever `lastIndex` does, `filter` keeps an
   * order-preserving subsequence of the tasks, each kept task matched from
   * some position, and the search fails only when some test threw.
   */
  function SearchTasksAsWritten(tasks: seq<Task>, m: Option<Matcher>, lastIndex: nat): (r: Option<seq<Task>>)
    ensures m.None? ==> r == Some(tasks)
    ensures m.Some? && !m.value.global ==> r == SearchTasks(tasks, m)
    ensures r.Some? ==> IsSubsequence(r.value, tasks)
    ensures m.Some? && r.Some? ==> forall t :: t in r.value ==> HitsFromSomewhere(m.value, t)
    ensures m.Some? && r.None? ==> exists k :: 0 <= k < |tasks| && ThrowsFromSomewhere(m.value, tasks[k])
    ensures m.Some? && NeverFaults(m.value) ==> r.Some?
  {
    if m.None? then IsSubsequenceReflexive(tasks); Some(tasks)
    else
      var kept := FilterFrom(tasks, m.value, lastIndex);
      FilterFromIsSubsequence(tasks, m.value, lastIndex);
      FilterFromKeepsHits(tasks, m.value, lastIndex);
      FilterFromFailsOnThrow(tasks, m.value, lastIndex);
      FilterFromNeverFails(tasks, m.value, lastIndex);
      if !m.value.global then
        StatelessFilter(tasks, m.value, lastIndex);
        assert kept == SearchTasks(tasks, m);
        kept
      else kept
  }

  /** The filter, front to back, threading `lastIndex` from one callback to the next. */
  function FilterFrom(tasks: seq<Task>, m: Matcher, lastIndex: nat): Option<seq<Task>>
    decreases |tasks|
  {
    if tasks == [] then Some([])
    else
      var (v, li) := AnyHitFrom(m, SearchFields(tasks[0]), lastIndex);
      if v == Threw then None
      else
        match FilterFrom(tasks[1..], m, li)
        case None => None
        case Some(rest) => Some(if v == Hit then [tasks[0]] + rest else rest)
  }

  /** Some `lastIndex` the chain of tests over the task's fields starts from makes it match. */
  ghost predicate HitsFromSomewhere(m: Matcher, t: Task)
  {
    exists li: nat :: AnyHitFrom(m, SearchFields(t), li).0 == Hit
  }

  /** Some `lastIndex` the chain of tests over the task's fields starts from makes it throw. */
  ghost predicate ThrowsFromSomewhere(m: Matcher, t: Task)
  {
    exists li: nat :: AnyHitFrom(m, SearchFields(t), li).0 == Threw
  }

  /** The threaded filter keeps an order-preserving subsequence of the tasks. */
  lemma {:induction false} FilterFromIsSubsequence(tasks: seq<Task>, m: Matcher, lastIndex: nat)
    ensures FilterFrom(tasks, m, lastIndex).Some? ==> IsSubsequence(FilterFrom(tasks, m, lastIndex).value, tasks)
    decreases |tasks|
  {
    if tasks != [] {
      var li := AnyHitFrom(m, SearchFields(tasks[0]), lastIndex).1;
      FilterFromIsSubsequence(tasks[1..], m, li);
      if FilterFrom(tasks, m, lastIndex).Some? {
        var rest := FilterFrom(tasks[1..], m, li).value;
        SubsequenceCons(tasks[0], rest, tasks[1..]);
        assert [tasks[0]] + tasks[1..] == tasks;
      }
    }
  }

  /** Every task the threaded filter keeps matched from some position. */
  lemma {:induction false} FilterFromKeepsHits(tasks: seq<Task>, m: Matcher, lastIndex: nat)
    ensures FilterFrom(tasks, m, lastIndex).Some? ==>
      forall t :: t in FilterFrom(tasks, m, lastIndex).value ==> HitsFromSomewhere(m, t)
    decreases |tasks|
  {
    if tasks != [] {
      var li := AnyHitFrom(m, SearchFields(tasks[0]), lastIndex).1;
      FilterFromKeepsHits(tasks[1..], m, li);
      if AnyHitFrom(m, SearchFields(tasks[0]), lastIndex).0 == Hit {
        assert HitsFromSomewhere(m, tasks[0]);
      }
    }
  }

  /** The threaded filter fails only when the test of some task, from some position, threw. */
  lemma {:induction false} FilterFromFailsOnThrow(tasks: seq<Task>, m: Matcher, lastIndex: nat)
    ensures FilterFrom(tasks, m, lastIndex).None? ==>
      exists k :: 0 <= k < |tasks| && ThrowsFromSomewhere(m, tasks[k])
    decreases |tasks|
  {
    if tasks != [] && FilterFrom(tasks, m, lastIndex).None? {
      var (v, li) := AnyHitFrom(m, SearchFields(tasks[0]), lastIndex);
      if v == Threw {
        assert ThrowsFromSomewhere(m, tasks[0]);
      } else {
        FilterFromFailsOnThrow(tasks[1..], m, li);
        var k :| 0 <= k < |tasks| - 1 && ThrowsFromSomewhere(m, tasks[1..][k]);
        assert tasks[1..][k] == tasks[k + 1];
      }
    }
  }

  /** With an engine that never throws, no threaded test throws. */
  lemma {:induction false} ChainNeverThrows(m: Matcher, fs: seq<string>, lastIndex: nat)
    requires NeverFaults(m)
    ensures AnyHitFrom(m, fs, lastIndex).0 != Threw
    decreases |fs|
  {
    if fs != [] {
      assert m.exec(fs[0], 0) != Fault && m.exec(fs[0], lastIndex) != Fault;
      ChainNeverThrows(m, fs[1..], Test(m, fs[0], lastIndex).1);
    }
  }

  /** With an engine that never throws, the threaded filter never fails. */
  lemma {:induction false} FilterFromNeverFails(tasks: seq<Task>, m: Matcher, lastIndex: nat)
    ensures NeverFaults(m) ==> FilterFrom(tasks, m, lastIndex).Some?
    decreases |tasks|
  {
    if tasks != [] && NeverFaults(m) {
      ChainNeverThrows(m, SearchFields(tasks[0]), lastIndex);
      FilterFromNeverFails(tasks[1..], m, AnyHitFrom(m, SearchFields(tasks[0]), lastIndex).1);
    }
  }

  /** Without `g` no call reads or changes `lastIndex`. */
  lemma {:induction false} StatelessChain(m: Matcher, fs: seq<string>, lastIndex: nat)
    requires !m.global
    ensures AnyHitFrom(m, fs, lastIndex) == (AnyHit(m, fs), lastIndex)
    decreases |fs|
  {
    if fs != [] { StatelessChain(m, fs[1..], lastIndex); }
  }

  /** Without `g` the filter as written is the stateless one. */
  lemma {:induction false} StatelessFilter(tasks: seq<Task>, m: Matcher, lastIndex: nat)
    requires !m.global
    ensures FilterFrom(tasks, m, lastIndex) ==
      (if AnyThrows(m, tasks) then None else Some(Filter(tasks, Keeps(m))))
    decreases |tasks|
  {
    if tasks != [] {
      var v := TaskVerdict(m, tasks[0]);
      StatelessChain(m, SearchFields(tasks[0]), lastIndex);
      assert AnyHitFrom(m, SearchFields(tasks[0]), lastIndex) == (v, lastIndex);
      ThrowsSplit(m, tasks);
      if v != Threw {
        var tail := FilterFrom(tasks[1..], m, lastIndex);
        assert FilterFrom(tasks, m, lastIndex) ==
          (match tail case None => None case Some(rest) => Some(if v == Hit then [tasks[0]] + rest else rest));
        StatelessFilter(tasks[1..], m, lastIndex);
        if !AnyThrows(m, tasks[1..]) {
          var rest := Filter(tasks[1..], Keeps(m));
          FilterFront(tasks, Keeps(m));
          assert Keeps(m)(tasks[0]) == (v == Hit);
          if v != Hit {
            assert [] + rest == rest;
          }
        }
      }
    }
  }

  predicate AnyThrows(m: Matcher, tasks: seq<Task>)
  {
    exists i :: 0 <= i < |tasks| && TaskVerdict(m, tasks[i]) == Threw
  }

  lemma ThrowsSplit(m: Matcher, tasks: seq<Task>)
    requires tasks != []
    ensures AnyThrows(m, tasks) <==> TaskVerdict(m, tasks[0]) == Threw || AnyThrows(m, tasks[1..])
  {
    if AnyThrows(m, tasks[1..]) {
      var i :| 0 <= i < |tasks[1..]| && TaskVerdict(m, tasks[1..][i]) == Threw;
      assert tasks[i + 1] == tasks[1..][i];
    }
    if AnyThrows(m, tasks) {
      var i :| 0 <= i < |tasks| && TaskVerdict(m, tasks[i]) == Threw;
      if i > 0 { assert tasks[1..][i - 1] == tasks[i]; }
    }
  }

  /** `Filter` peels off its first element as well as its last. */
  lemma {:induction false} FilterFront<T(!new)>(xs: seq<T>, p: T -> bool)
    requires xs != []
    ensures Filter(xs, p) == (if p(xs[0]) then [xs[0]] else []) + Filter(xs[1..], p)
    decreases |xs|
  {
    if |xs| > 1 {
      var init := xs[..|xs| - 1];
      FilterFront(init, p);
      assert init[1..] == xs[1..][..|xs[1..]| - 1];
    } else {
      assert xs[1..] == [];
    }
  }

  // ---------------------------------------------------------------------
  // A literal expression, to exhibit the effect of `g`

  /** Leftmost occurrence of `pat` in `s` at or after `p`. */
  function FindLiteral(pat: string, s: string, p: nat): Scan
    decreases |s| - p
  {
    if p + |pat| > |s| then NoMatch
    else if s[p..p + |pat|] == pat then Found(p, p + |pat|)
    else FindLiteral(pat, s, p + 1)
  }

  /** The expression `/pat/` (or `/pat/g`) for a pattern without special characters. */
  function Literal(pat: string, global: bool): (m: Matcher)
    ensures m.global == global
  {
    Matcher((s: string, p: nat) => FindLiteral(pat, s, p), global)
  }

  lemma {:induction false} FindLiteralInRange(pat: string, s: string, p: nat)
    ensures FindLiteral(pat, s, p).Found? ==>
      p <= FindLiteral(pat, s, p).start <= FindLiteral(pat, s, p).end <= |s|
    decreases |s| - p
  {
    if p + |pat| <= |s| && s[p..p + |pat|] != pat { FindLiteralInRange(pat, s, p + 1); }
  }

  lemma LiteralIsSound(pat: string, global: bool)
    ensures Sound(Literal(pat, global))
  {
    forall s: string, p: nat ensures
      p <= |s| && Literal(pat, global).exec(s, p).Found? ==>
        p <= Literal(pat, global).exec(s, p).start <= Literal(pat, global).exec(s, p).end <= |s|
    {
      FindLiteralInRange(pat, s, p);
    }
  }

  lemma {:induction false} LiteralAbsent(c: char, s: string, p: nat)
    requires forall i :: p <= i < |s| ==> s[i] != c
    ensures FindLiteral([c], s, p) == NoMatch
    decreases |s| - p
  {
    if p + 1 <= |s| {
      assert s[p..p + 1] == [s[p]];
      LiteralAbsent(c, s, p + 1);
    }
  }

  function Sample(id: string): Task
  {
    Task(id, "x", 30, "Work", "2025-01-01", None, "", "")
  }

  lemma SampleFields(id: string)
    ensures SearchFields(Sample(id)) == ["x", "Work", "30", "2025-01-01"]
  {
    assert IntToString(30) == "30" by {
      assert NatToString(3) == "3";
    }
  }

  /** Searching a "Sample" task from `lastIndex` 0 matches its title and leaves `lastIndex` at 1. */
  lemma SampleFromZero(id: string)
    ensures TaskVerdict(Literal("x", true), Sample(id)) == Hit
    ensures AnyHitFrom(Literal("x", true), SearchFields(Sample(id)), 0) == (Hit, 1)
  {
    SampleFields(id);
    assert FindLiteral("x", "x", 0) == Found(0, 1);
  }

  /** From `lastIndex` 1 the title does not match, and neither does any other field. */
  lemma SampleFromOne(id: string)
    ensures AnyHitFrom(Literal("x", true), SearchFields(Sample(id)), 1) == (Miss, 0)
  {
    var m := Literal("x", true);
    var fs := SearchFields(Sample(id));
    SampleFields(id);
    assert FindLiteral("x", "x", 1) == NoMatch;
    assert Test(m, fs[0], 1) == (Miss, 0);
    LiteralAbsent('x', "Work", 0);
    LiteralAbsent('x', "30", 0);
    LiteralAbsent('x', "2025-01-01", 0);
    assert fs[1..] == ["Work", "30", "2025-01-01"];
    assert AnyHitFrom(m, ["2025-01-01"], 0) == (Miss, 0);
    assert AnyHitFrom(m, ["30", "2025-01-01"], 0) == (Miss, 0) by {
      assert ["30", "2025-01-01"][1..] == ["2025-01-01"];
    }
    assert AnyHitFrom(m, ["Work", "30", "2025-01-01"], 0) == (Miss, 0) by {
      assert ["Work", "30", "2025-01-01"][1..] == ["30", "2025-01-01"];
    }
  }

  lemma ScanXax()
    ensures FindLiteral("x", "xax", 0) == Found(0, 1)
    ensures FindLiteral("x", "xax", 1) == Found(2, 3)
    ensures FindLiteral("x", "xax", 2) == Found(2, 3)
    ensures FindLiteral("x", "xax", 3) == NoMatch
  {
    var s := "xax";
    assert s[0..1] == "x" && s[2..3] == "x";
    assert s[1..2] == "a";
  }

  /** Without `g`, highlighting `x` in "xax" marks the first occurrence only. */
  lemma HighlightFirstLiteral()
    ensures Sound(Literal("x", false))
    ensures Highlight(JString("xax"), Some(Literal("x", false))) == JString("<mark>x</mark>ax")
  {
    LiteralIsSound("x", false);
    ScanXax();
    var s := "xax";
    var one := [Plain(""), Marked("x"), Plain("ax")];
    assert Marks(s, Literal("x", false)) == Some(one) by {
      assert s[..0] == "" && s[0..1] == "x" && s[1..] == "ax";
    }
    assert Render(one) == "<mark>x</mark>ax" by {
      assert one[..2] == [Plain(""), Marked("x")];
      assert one[..2][..1] == [Plain("")];
      assert [Plain("")][..0] == [];
    }
  }

  /** The scan of `/x/g` over "xax" marks both occurrences. */
  lemma MarkAllXax()
    ensures Sound(Literal("x", true))
    ensures MarkAll("xax", Literal("x", true), 0, 0) ==
      Some([Plain(""), Marked("x"), Plain("a"), Marked("x"), Plain("")])
  {
    LiteralIsSound("x", true);
    ScanXax();
    var s, m := "xax", Literal("x", true);
    assert MarkAll(s, m, 3, 3) == Some([Plain("")]) by { assert s[3..] == ""; }
    assert MarkAll(s, m, 1, 1) == Some([Plain("a"), Marked("x"), Plain("")]) by {
      assert s[1..2] == "a" && s[2..3] == "x";
      assert [Plain("a"), Marked("x")] + [Plain("")] == [Plain("a"), Marked("x"), Plain("")];
    }
    assert s[0..0] == "" && s[0..1] == "x";
    assert [Plain(""), Marked("x")] + [Plain("a"), Marked("x"), Plain("")] ==
      [Plain(""), Marked("x"), Plain("a"), Marked("x"), Plain("")];
  }

  lemma RenderXax()
    ensures Render([Plain(""), Marked("x"), Plain("a"), Marked("x"), Plain("")]) == "<mark>x</mark>a<mark>x</mark>"
  {
    var p1 := [Plain("")];
    var p2 := p1 + [Marked("x")];
    var p3 := p2 + [Plain("a")];
    var p4 := p3 + [Marked("x")];
    var p5 := p4 + [Plain("")];
    assert p1[..0] == [] && p2[..1] == p1 && p3[..2] == p2 && p4[..3] == p3 && p5[..4] == p4;
    assert Render(p1) == "";
    assert Render(p2) == "<mark>x</mark>";
    assert Render(p3) == "<mark>x</mark>a";
    assert Render(p4) == "<mark>x</mark>a<mark>x</mark>";
    assert Render(p5) == "<mark>x</mark>a<mark>x</mark>";
    assert p5 == [Plain(""), Marked("x"), Plain("a"), Marked("x"), Plain("")];
  }

  /** With `g`, highlighting `x` in "xax" marks every occurrence. */
  lemma HighlightEveryLiteral()
    ensures Sound(Literal("x", true))
    ensures Highlight(JString("xax"), Some(Literal("x", true))) == JString("<mark>x</mark>a<mark>x</mark>")
  {
    MarkAllXax();
    RenderXax();
    var both := [Plain(""), Marked("x"), Plain("a"), Marked("x"), Plain("")];
    assert Marks("xax", Literal("x", true)) == Some(both);
  }

  /**
   * With the `g` flag the application passes, two tasks titled "x"
   * searched for "x": the first `test` leaves `lastIndex` at 1, so the
   * second title is searched from its end and the second task is dropped,
   * although it matches.
   */
  lemma GlobalSearchDropsMatches()
    ensures SearchTasks([Sample("1"), Sample("2")], Some(Literal("x", true)))
      == Some([Sample("1"), Sample("2")])
    ensures SearchTasksAsWritten([Sample("1"), Sample("2")], Some(Literal("x", true)), 0)
      == Some([Sample("1")])
  {
    var m := Literal("x", true);
    var a, b := Sample("1"), Sample("2");
    SampleFromZero("1");
    SampleFromZero("2");
    SampleFromOne("2");
    assert [a, b][1..] == [b];
    assert [b][1..] == [];
    assert FilterFrom([], m, 0) == Some([]);
    assert FilterFrom([b], m, 1) == Some([]);
    assert FilterFrom([a, b], m, 0) == Some([a] + []);
    assert [a] + [] == [a];
    assert !AnyThrows(m, [a, b]);
    assert Filter([a, b], Keeps(m)) == [a, b] by {
      assert [a, b][..1] == [a];
      assert Filter([a], Keeps(m)) == [a] by { assert [a][..0] == []; }
    }
  }
}
