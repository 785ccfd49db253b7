/** SQL scripts: quoting, and splitting a script into statements. */
module Scripts {
  import opened Common
  import opened Texts

  // ---- what a script means -------------------------------------------------

  /** Outside quotes, or within a quotation opened by a quote character. */
  datatype Mode = Outside | Within(quote: char)

  predicate IsQuote(c: char) {
    c == '\'' || c == '"'
  }

  /** A quote character opens a quotation and the same character closes it. A doubled quote
      closes a quotation and opens it again at once. */
  function Next(mode: Mode, c: char): Mode {
    match mode
    case Outside => if IsQuote(c) then Within(c) else Outside
    case Within(quote) => if c == quote then Outside else mode
  }

  /** The quotation a text leaves open. */
  function ModeAfter(mode: Mode, s: string): Mode {
    if s == [] then mode else Next(ModeAfter(mode, s[..|s| - 1]), s[|s| - 1])
  }

  datatype Scan = Scan(mode: Mode, done: seq<string>, current: string)

  function Keep(done: seq<string>, current: string): seq<string> {
    if Trim(current) == "" then done else done + [Trim(current)]
  }

  /** A separator outside quotes ends a statement. */
  function Feed(scan: Scan, c: char): Scan {
    if c == ';' && scan.mode == Outside then Scan(Outside, Keep(scan.done, scan.current), "")
    else Scan(Next(scan.mode, c), scan.done, scan.current + [c])
  }

  function FeedAll(scan: Scan, s: string): Scan {
    if s == [] then scan else Feed(FeedAll(scan, s[..|s| - 1]), s[|s| - 1])
  }

  const START := Scan(Outside, [], "")

  /** The statements of a script, character by character. */
  function Statements(source: string): Result<seq<string>> {
    var scan := FeedAll(START, source);
    if scan.mode == Outside then Ok(Keep(scan.done, scan.current)) else Err(InvalidState)
  }

  lemma FeedMore(scan: Scan, s: string, n: nat)
    requires n < |s|
    ensures FeedAll(scan, s[..n + 1]) == Feed(FeedAll(scan, s[..n]), s[n])
  {
    assert s[..n + 1][..n] == s[..n];
  }

  lemma {:induction false} FeedSplit(scan: Scan, a: string, b: string)
    ensures FeedAll(scan, a + b) == FeedAll(FeedAll(scan, a), b)
  {
    if b == [] {
      assert a + b == a;
    } else {
      var n := |b| - 1;
      assert (a + b)[..|a + b| - 1] == a + b[..n];
      FeedSplit(scan, a, b[..n]);
    }
  }

  lemma {:induction false} OpenMode(scan: Scan, s: string)
    ensures FeedAll(scan, s).mode == ModeAfter(scan.mode, s)
  {
    if s != [] {
      OpenMode(scan, s[..|s| - 1]);
    }
  }

  /** A script is refused exactly when it leaves a quotation open. */
  lemma RefusedIffOpen(source: string)
    ensures Statements(source).Err? <==> ModeAfter(Outside, source) != Outside
  {
    OpenMode(START, source);
  }

  // ---- splitting with one character of lookahead ---------------------------

  /** Copy a quotation whose opening quote has been read, doubled quotes included. */
  method CopyQuoted(source: string, start: nat, quote: char, copied: string, ghost done: seq<string>)
      returns (closed: bool, next: nat, current: string)
    requires start <= |source| && IsQuote(quote)
    requires FeedAll(START, source[..start]) == Scan(Within(quote), done, copied)
    ensures closed ==> start < next <= |source| && FeedAll(START, source[..next]) == Scan(Outside, done, current)
    ensures !closed ==> FeedAll(START, source).mode == Within(quote)
  {
    next, current := start, copied;
    while next < |source|
      invariant start <= next <= |source| && FeedAll(START, source[..next]) == Scan(Within(quote), done, current)
    {
      FeedMore(START, source, next);
      if source[next] == quote && next + 1 < |source| && source[next + 1] == quote {
        FeedMore(START, source, next + 1);
        assert current + [quote] + [quote] == current + [quote, quote];
        current := current + [quote, quote];
        next := next + 2;
      } else if source[next] == quote {
        return true, next + 1, current + [quote];
      } else {
        current := current + [source[next]];
        next := next + 1;
      }
    }
    assert source[..next] == source;
    closed := false;
  }

  /** Split a script into its trimmed, non-empty statements. */
  method SplitStatements(source: string) returns (r: Result<seq<string>>)
    ensures r == Statements(source)
  {
    hide Keep;
    var statements: seq<string>, current, next := [], "", 0;
    while next < |source|
      invariant next <= |source| && FeedAll(START, source[..next]) == Scan(Outside, statements, current)
    {
      var c := source[next];
      FeedMore(START, source, next);
      if IsQuote(c) {
        var closed, after, copied := CopyQuoted(source, next + 1, c, current + [c], statements);
        if !closed {
          return Err(InvalidState);
        }
        next, current := after, copied;
      } else if c == ';' {
        statements := Keep(statements, current);
        current := "";
        next := next + 1;
      } else {
        current := current + [c];
        next := next + 1;
      }
    }
    assert source[..next] == source;
    r := Ok(Keep(statements, current));
  }

  // ---- closed pieces -------------------------------------------------------

  /** Every quotation is closed and separators occur only within quotations. */
  predicate Closed(s: string) {
    && ModeAfter(Outside, s) == Outside
    && forall i :: 0 <= i < |s| && s[i] == ';' ==> ModeAfter(Outside, s[..i]) != Outside
  }

  lemma {:induction false} ModeSplit(mode: Mode, a: string, b: string)
    ensures ModeAfter(mode, a + b) == ModeAfter(ModeAfter(mode, a), b)
  {
    if b == [] {
      assert a + b == a;
    } else {
      var n := |b| - 1;
      assert (a + b)[..|a + b| - 1] == a + b[..n];
      ModeSplit(mode, a, b[..n]);
    }
  }

  /** Closed pieces put together are a closed piece. */
  lemma ClosedJoin(a: string, b: string)
    requires Closed(a) && Closed(b)
    ensures Closed(a + b)
  {
    hide ModeAfter;
    var s := a + b;
    ModeSplit(Outside, a, b);
    forall i | 0 <= i < |s| && s[i] == ';' ensures ModeAfter(Outside, s[..i]) != Outside {
      if i < |a| {
        assert s[..i] == a[..i];
      } else {
        assert s[..i] == a + b[..i - |a|];
        ModeSplit(Outside, a, b[..i - |a|]);
      }
    }
  }

  /** Text without quotes and separators is closed. */
  lemma {:induction false} PlainIsClosed(s: string)
    requires forall i :: 0 <= i < |s| ==> !IsQuote(s[i]) && s[i] != ';'
    ensures Closed(s)
  {
    if s != [] {
      PlainIsClosed(s[..|s| - 1]);
    }
  }

  function Doubled(s: string, quote: char): string {
    if s == [] then [] else Doubled(s[..|s| - 1], quote) + if s[|s| - 1] == quote then [quote, quote] else [s[|s| - 1]]
  }

  function Quoted(s: string, quote: char): string {
    [quote] + Doubled(s, quote) + [quote]
  }

  function QuoteString(s: string): (q: string)
    ensures Closed(q) && Trimmed(q)
  {
    QuotedIsClosed(s, '\'');
    Quoted(s, '\'')
  }

  function QuoteIdentifier(s: string): (q: string)
    ensures Closed(q) && Trimmed(q)
  {
    QuotedIsClosed(s, '"');
    Quoted(s, '"')
  }

  /** Separators of a text occur only where a quotation is open. */
  predicate Guarded(mode: Mode, s: string) {
    forall i :: 0 <= i < |s| && s[i] == ';' ==> ModeAfter(mode, s[..i]) != Outside
  }

  lemma GuardedMore(mode: Mode, s: string, t: string)
    requires Guarded(mode, s) && Guarded(ModeAfter(mode, s), t)
    ensures Guarded(mode, s + t)
  {
    hide ModeAfter;
    var u := s + t;
    forall i | 0 <= i < |u| && u[i] == ';' ensures ModeAfter(mode, u[..i]) != Outside {
      if i < |s| {
        assert u[..i] == s[..i];
      } else {
        assert u[..i] == s + t[..i - |s|];
        ModeSplit(mode, s, t[..i - |s|]);
      }
    }
  }

  /** Within a quotation, doubled text stays within it and guards its separators. */
  lemma {:induction false} DoubledStays(s: string, quote: char)
    requires IsQuote(quote)
    ensures ModeAfter(Within(quote), Doubled(s, quote)) == Within(quote) && Guarded(Within(quote), Doubled(s, quote))
  {
    if s != [] {
      var n := |s| - 1;
      DoubledStays(s[..n], quote);
      var last := if s[n] == quote then [quote, quote] else [s[n]];
      LastStays(s[n], quote);
      ModeSplit(Within(quote), Doubled(s[..n], quote), last);
      GuardedMore(Within(quote), Doubled(s[..n], quote), last);
    }
  }

  lemma OneCharacter(mode: Mode, c: char)
    ensures ModeAfter(mode, [c]) == Next(mode, c) && (c != ';' ==> Guarded(mode, [c]))
  {
    assert [c][..0] == [];
  }

  lemma LastStays(c: char, quote: char)
    requires IsQuote(quote)
    ensures var last := if c == quote then [quote, quote] else [c];
            ModeAfter(Within(quote), last) == Within(quote) && Guarded(Within(quote), last)
  {
    if c == quote {
      OneCharacter(Within(quote), quote);
      OneCharacter(Outside, quote);
      assert [quote] + [quote] == [quote, quote];
      ModeSplit(Within(quote), [quote], [quote]);
      GuardedMore(Within(quote), [quote], [quote]);
    } else {
      OneCharacter(Within(quote), c);
      assert [c][..0] == [];
    }
  }

  /** Whatever a text holds, quoting it makes a closed piece. */
  lemma QuotedIsClosed(s: string, quote: char)
    requires IsQuote(quote)
    ensures Closed(Quoted(s, quote)) && Trimmed(Quoted(s, quote))
  {
    hide Doubled, ModeAfter;
    var inner := Doubled(s, quote);
    DoubledStays(s, quote);
    OneCharacter(Outside, quote);
    OneCharacter(Within(quote), quote);
    ModeSplit(Outside, [quote], inner);
    GuardedMore(Outside, [quote], inner);
    ModeSplit(Outside, [quote] + inner, [quote]);
    GuardedMore(Outside, [quote] + inner, [quote]);
  }

  // ---- splitting undoes joining --------------------------------------------

  /** What stands between statements: white space and separators. */
  predicate Gap(s: string) {
    forall i :: 0 <= i < |s| ==> IsSpace(s[i]) || s[i] == ';'
  }

  /** Statements with gaps before, between and after them. */
  function Script(ss: seq<string>, gaps: seq<string>): string
    requires |gaps| == |ss| + 1
  {
    if ss == [] then gaps[0] else Script(ss[..|ss| - 1], gaps[..|ss|]) + ss[|ss| - 1] + gaps[|ss|]
  }

  /** The gaps between statements separate them. */
  predicate Separated(ss: seq<string>, gaps: seq<string>) {
    && |gaps| == |ss| + 1
    && (forall i :: 0 <= i <= |ss| ==> Gap(gaps[i]))
    && (forall i :: 0 < i < |ss| ==> ';' in gaps[i])
  }

  predicate Whole(s: string) {
    Trimmed(s) && Closed(s)
  }

  lemma {:induction false} ClosedFed(done: seq<string>, current: string, s: string)
    requires Guarded(Outside, s)
    ensures FeedAll(Scan(Outside, done, current), s) == Scan(ModeAfter(Outside, s), done, current + s)
  {
    if s == [] {
      assert current + s == current;
    } else {
      var n := |s| - 1;
      forall i | 0 <= i < n && s[..n][i] == ';' ensures ModeAfter(Outside, s[..n][..i]) != Outside {
        assert s[..n][..i] == s[..i] && s[i] == ';';
      }
      ClosedFed(done, current, s[..n]);
      assert current + s[..n] + [s[n]] == current + s;
    }
  }

  /** A gap ends the statement before it at its first separator, and adds no other. */
  lemma {:induction false} GapFed(done: seq<string>, current: string, gap: string)
    requires Gap(gap)
    ensures var scan := FeedAll(Scan(Outside, done, current), gap);
            var i := IndexOf(gap, {';'});
            && (i == |gap| ==> scan == Scan(Outside, done, current + gap))
            && (i < |gap| ==> scan.mode == Outside && scan.done == Keep(done, current + gap[..i]) && Blank(scan.current))
  {
    hide Keep;
    if gap == [] {
      assert current + gap == current;
    } else {
      var n := |gap| - 1;
      GapFed(done, current, gap[..n]);
      FirstOf(gap);
      var before := FeedAll(Scan(Outside, done, current), gap[..n]);
      if IndexOf(gap[..n], {';'}) < n {
        assert gap[..n][..IndexOf(gap, {';'})] == gap[..IndexOf(gap, {';'})];
        BlankAdds(before.done, before.current);
      }
      assert current + gap[..n] + [gap[n]] == current + gap;
    }
  }

  lemma FirstOf(gap: string)
    requires gap != []
    ensures var n := |gap| - 1;
            IndexOf(gap, {';'}) == if IndexOf(gap[..n], {';'}) < n then IndexOf(gap[..n], {';'}) else if gap[n] == ';' then n else n + 1
  {
    var n := |gap| - 1;
    var i, j := IndexOf(gap, {';'}), IndexOf(gap[..n], {';'});
    assert forall k :: 0 <= k < n ==> gap[..n][k] == gap[k];
  }

  lemma BlankAdds(done: seq<string>, current: string)
    requires Blank(current)
    ensures Keep(done, current) == done
  {
    TrimDrops(current, "", "");
    assert current + "" + "" == current;
  }

  /** A statement between blanks is kept as it is. */
  lemma StatementKept(done: seq<string>, before: string, s: string, after: string)
    requires Blank(before) && Trimmed(s) && Blank(after)
    ensures Keep(done, before + s + after) == done + [s]
  {
    TrimDrops(before, s, after);
  }

  /** The state after some statements and the gap that follows them: the statements are done,
      or the last of them is still current. */
  predicate Reached(scan: Scan, ss: seq<string>) {
    && scan.mode == Outside && Keep(scan.done, scan.current) == ss
  }

  lemma {:induction false} ScriptFed(ss: seq<string>, gaps: seq<string>)
    requires Separated(ss, gaps) && forall i :: 0 <= i < |ss| ==> Whole(ss[i])
    ensures Reached(FeedAll(START, Script(ss, gaps)), ss)
    ensures ss == [] || ';' in gaps[|ss|] ==> FeedAll(START, Script(ss, gaps)).done == ss && Blank(FeedAll(START, Script(ss, gaps)).current)
  {
    hide Keep, Trimmed, Closed, Gap, Blank, IsSpace;
    var n := |ss| - 1;
    if ss == [] {
      GapFed([], "", gaps[0]);
      FirstGap(gaps[0]);
    } else {
      ScriptFed(ss[..n], gaps[..n + 1]);
      var head := Script(ss[..n], gaps[..n + 1]);
      StatementFed(FeedAll(START, head), ss[..n], ss[n], gaps[n + 1]);
      FeedSplit(START, head, ss[n]);
      FeedSplit(START, head + ss[n], gaps[n + 1]);
      assert ss[..n] + [ss[n]] == ss;
    }
  }

  lemma FirstGap(gap: string)
    requires Gap(gap)
    ensures Reached(FeedAll(START, gap), []) && FeedAll(START, gap).done == [] && Blank(FeedAll(START, gap).current)
  {
    hide FeedAll, Keep;
    GapFed([], "", gap);
    var i := IndexOf(gap, {';'});
    assert "" + gap == gap && "" + gap[..i] == gap[..i];
    BlankAdds([], gap[..i]);
    BlankAdds([], FeedAll(START, gap).current);
  }

  lemma StatementFed(scan: Scan, ss: seq<string>, s: string, gap: string)
    requires scan.mode == Outside && scan.done == ss && Blank(scan.current) && Whole(s) && Gap(gap)
    ensures var after := FeedAll(FeedAll(scan, s), gap);
            && Reached(after, ss + [s])
            && (';' in gap ==> after.done == ss + [s] && Blank(after.current))
  {
    hide FeedAll, Keep, ModeAfter, Trimmed, IsSpace;
    ClosedFed(ss, scan.current, s);
    GapFed(ss, scan.current + s, gap);
    var i := IndexOf(gap, {';'});
    StatementKept(ss, scan.current, s, gap[..i]);
    var after := FeedAll(FeedAll(scan, s), gap);
    if i < |gap| {
      BlankAdds(after.done, after.current);
    } else {
      assert gap[..i] == gap;
    }
  }

  /** Any statements that are trimmed, closed and separated are recovered from their script. */
  lemma SplitUndoesJoin(ss: seq<string>, gaps: seq<string>)
    requires Separated(ss, gaps) && forall i :: 0 <= i < |ss| ==> Whole(ss[i])
    ensures Statements(Script(ss, gaps)) == Ok(ss)
  {
    hide Keep, FeedAll, Script;
    ScriptFed(ss, gaps);
  }
}
