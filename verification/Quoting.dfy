/** The Windows argument quoter, and the splitting rules of the Microsoft C
    runtime that undo it. Units are UTF-16 code units before the terminating
    zero. */
module Quoting {
  import opened Machine

  type Units = seq<u16>

  const SPACE: u16 := 32
  const TAB: u16 := 9
  const QUOTE: u16 := 34
  const SLASH: u16 := 92

  predicate Blank(u: u16) {
    u == SPACE || u == TAB
  }

  predicate HasBlank(s: Units) {
    exists i :: 0 <= i < |s| && Blank(s[i])
  }

  function Slashes(n: nat): (s: Units)
    ensures |s| == n
  {
    if n == 0 then [] else Slashes(n - 1) + [SLASH]
  }

  // ----- the quoter -----

  predicate NeedsQuotes(s: Units) {
    s == [] || HasBlank(s)
  }

  /** The text between the quotes, with `k` backslashes seen but not yet written. */
  function Body(s: Units, k: nat): Units {
    if s == [] then Slashes(2 * k)
    else if s[0] == SLASH then Body(s[1..], k + 1)
    else if s[0] == QUOTE then Slashes(2 * k + 1) + [QUOTE] + Body(s[1..], 0)
    else Slashes(k) + [s[0]] + Body(s[1..], 0)
  }

  function Quote(s: Units): Units {
    if NeedsQuotes(s) then [QUOTE] + Body(s, 0) + [QUOTE] else s
  }

  /** Every later argument, each behind one space. */
  function Tail(args: seq<Units>): Units {
    if args == [] then [] else [SPACE] + Quote(args[0]) + Tail(args[1..])
  }

  function CommandLine(args: seq<Units>): Units {
    if args == [] then [] else Quote(args[0]) + Tail(args[1..])
  }

  // ----- the runtime's splitting rules -----

  function LeadingSlashes(p: Units): (n: nat)
    ensures n <= |p|
    ensures n < |p| ==> p[n] != SLASH
  {
    if p == [] || p[0] != SLASH then 0 else 1 + LeadingSlashes(p[1..])
  }

  /** One argument after the program name. Backslashes are literal unless a
      quote follows: then each pair stands for one and an odd one escapes the
      quote. Inside quotes a doubled quote is a literal one. */
  function ParseArg(p: Units, quoted: bool): (r: (Units, Units))
    ensures |r.1| <= |p|
    ensures p != [] && (quoted || !Blank(p[0])) ==> |r.1| < |p|
    decreases |p|
  {
    var n := LeadingSlashes(p);
    var q := p[n..];
    if q == [] then (Slashes(n), [])
    else if q[0] == QUOTE then
      if n % 2 == 1 then
        var (a, rest) := ParseArg(q[1..], quoted); (Slashes(n / 2) + [QUOTE] + a, rest)
      else if quoted && |q| > 1 && q[1] == QUOTE then
        var (a, rest) := ParseArg(q[2..], quoted); (Slashes(n / 2) + [QUOTE] + a, rest)
      else
        var (a, rest) := ParseArg(q[1..], !quoted); (Slashes(n / 2) + a, rest)
    else if !quoted && Blank(q[0]) then (Slashes(n), q)
    else var (a, rest) := ParseArg(q[1..], quoted); (Slashes(n) + [q[0]] + a, rest)
  }

  function SkipBlanks(p: Units): (r: Units)
    ensures |r| <= |p|
    ensures r != [] ==> !Blank(r[0])
  {
    if p != [] && Blank(p[0]) then SkipBlanks(p[1..]) else p
  }

  function ParseArgs(p: Units): seq<Units>
    decreases |p|
  {
    var q := SkipBlanks(p);
    if q == [] then []
    else
      var (a, rest) := ParseArg(q, false); [a] + ParseArgs(rest)
  }

  /** The program name: quotes toggle, backslashes mean nothing, and the name
      ends at a blank outside quotes, which is dropped. */
  function ParseProgram(p: Units, quoted: bool): (r: (Units, Units))
    ensures |r.1| <= |p|
  {
    if p == [] then ([], [])
    else if p[0] == QUOTE then ParseProgram(p[1..], !quoted)
    else if !quoted && Blank(p[0]) then ([], p[1..])
    else var (a, rest) := ParseProgram(p[1..], quoted); ([p[0]] + a, rest)
  }

  function ParseLine(line: Units): (r: seq<Units>)
    ensures |r| >= 1
  {
    var (name, rest) := ParseProgram(line, false);
    [name] + ParseArgs(rest)
  }

  // ----- slashes -----

  lemma {:induction false} SlashesShift(n: nat)
    ensures Slashes(n + 1) == [SLASH] + Slashes(n)
  {
    if n > 0 {
      SlashesShift(n - 1);
    }
  }

  lemma {:induction false} LeadingOf(n: nat, rest: Units)
    requires rest == [] || rest[0] != SLASH
    ensures LeadingSlashes(Slashes(n) + rest) == n && (Slashes(n) + rest)[n..] == rest
  {
    if n == 0 {
      assert Slashes(0) + rest == rest;
    } else {
      SlashesShift(n - 1);
      LeadingOf(n - 1, rest);
      assert (Slashes(n) + rest)[1..] == Slashes(n - 1) + rest;
    }
  }

  // ----- recovering one argument -----

  /** What may follow an argument on the line. */
  predicate Ends(tail: Units) {
    tail == [] || tail[0] == SPACE
  }

  /** One round of the argument scan, after `n` backslashes and before `q`. */
  function Round(n: nat, q: Units, quoted: bool): (Units, Units) {
    if q == [] then (Slashes(n), [])
    else if q[0] == QUOTE then
      if n % 2 == 1 then
        var (a, rest) := ParseArg(q[1..], quoted); (Slashes(n / 2) + [QUOTE] + a, rest)
      else if quoted && |q| > 1 && q[1] == QUOTE then
        var (a, rest) := ParseArg(q[2..], quoted); (Slashes(n / 2) + [QUOTE] + a, rest)
      else
        var (a, rest) := ParseArg(q[1..], !quoted); (Slashes(n / 2) + a, rest)
    else if !quoted && Blank(q[0]) then (Slashes(n), q)
    else var (a, rest) := ParseArg(q[1..], quoted); (Slashes(n) + [q[0]] + a, rest)
  }

  lemma ParseIsRound(n: nat, q: Units, quoted: bool)
    requires q == [] || q[0] != SLASH
    ensures ParseArg(Slashes(n) + q, quoted) == Round(n, q, quoted)
  {
    LeadingOf(n, q);
  }

  lemma BlankEnds(tail: Units)
    requires Ends(tail)
    ensures ParseArg(tail, false) == ([], tail)
  {
    ParseIsRound(0, tail, false);
    assert Slashes(0) + tail == tail;
  }

  lemma EvenHalf(k: nat)
    ensures (2 * k) / 2 == k && (2 * k) % 2 == 0
  {
  }

  lemma CloseQuote(k: nat, tail: Units)
    requires Ends(tail)
    ensures ParseArg(Slashes(2 * k) + ([QUOTE] + tail), true) == (Slashes(k), tail)
  {
    EvenHalf(k);
    ParseIsRound(2 * k, [QUOTE] + tail, true);
    BlankEnds(tail);
    assert ([QUOTE] + tail)[1..] == tail;
    assert Slashes(k) + [] == Slashes(k);
  }

  lemma OddHalf(k: nat)
    ensures (2 * k + 1) / 2 == k && (2 * k + 1) % 2 == 1
  {
  }

  lemma EscapedQuote(k: nat, rest: Units, a: Units, tail: Units)
    requires ParseArg(rest, true) == (a, tail)
    ensures ParseArg(Slashes(2 * k + 1) + ([QUOTE] + rest), true) == (Slashes(k) + [QUOTE] + a, tail)
  {
    OddHalf(k);
    ParseIsRound(2 * k + 1, [QUOTE] + rest, true);
    assert ([QUOTE] + rest)[1..] == rest;
  }

  lemma PlainUnit(k: nat, c: u16, rest: Units, quoted: bool, a: Units, tail: Units)
    requires c != SLASH && c != QUOTE && (quoted || !Blank(c)) && ParseArg(rest, quoted) == (a, tail)
    ensures ParseArg(Slashes(k) + ([c] + rest), quoted) == (Slashes(k) + [c] + a, tail)
  {
    ParseIsRound(k, [c] + rest, quoted);
    assert ([c] + rest)[1..] == rest;
  }

  lemma Regrouped(pre: Units, c: u16, body: Units, close: Units)
    ensures (pre + [c] + body) + close == pre + ([c] + (body + close))
  {
  }

  lemma NoSlashes(pre: Units, c: u16, s: Units)
    ensures pre + [c] + (Slashes(0) + s) == pre + ([c] + s)
  {
    assert Slashes(0) + s == s;
  }

  lemma QuoteStep(k: nat, body: Units, s: Units, tail: Units)
    requires ParseArg(body + ([QUOTE] + tail), true) == (Slashes(0) + s, tail)
    ensures ParseArg((Slashes(2 * k + 1) + [QUOTE] + body) + ([QUOTE] + tail), true)
            == (Slashes(k) + ([QUOTE] + s), tail)
  {
    EscapedQuote(k, body + ([QUOTE] + tail), Slashes(0) + s, tail);
    Regrouped(Slashes(2 * k + 1), QUOTE, body, [QUOTE] + tail);
    NoSlashes(Slashes(k), QUOTE, s);
  }

  lemma UnitStep(k: nat, c: u16, body: Units, s: Units, tail: Units)
    requires c != SLASH && c != QUOTE && ParseArg(body + ([QUOTE] + tail), true) == (Slashes(0) + s, tail)
    ensures ParseArg((Slashes(k) + [c] + body) + ([QUOTE] + tail), true) == (Slashes(k) + ([c] + s), tail)
  {
    PlainUnit(k, c, body + ([QUOTE] + tail), true, Slashes(0) + s, tail);
    Regrouped(Slashes(k), c, body, [QUOTE] + tail);
    NoSlashes(Slashes(k), c, s);
  }

  /** Inside quotes the escaped text parses back to the original. */
  lemma {:induction false} BodyParses(s: Units, k: nat, tail: Units)
    requires Ends(tail)
    ensures ParseArg(Body(s, k) + ([QUOTE] + tail), true) == (Slashes(k) + s, tail)
    decreases |s|
  {
    if s == [] {
      CloseQuote(k, tail);
      assert Slashes(k) + s == Slashes(k);
    } else {
      assert s == [s[0]] + s[1..];
      if s[0] == SLASH {
        BodyParses(s[1..], k + 1, tail);
        assert Slashes(k + 1) + s[1..] == Slashes(k) + ([SLASH] + s[1..]);
      } else if s[0] == QUOTE {
        BodyParses(s[1..], 0, tail);
        QuoteStep(k, Body(s[1..], 0), s[1..], tail);
      } else {
        BodyParses(s[1..], 0, tail);
        UnitStep(k, s[0], Body(s[1..], 0), s[1..], tail);
      }
    }
  }

  lemma BlankFreePart(s: Units, i: nat)
    requires !HasBlank(s) && i <= |s|
    ensures !HasBlank(s[i..])
  {
  }

  lemma SlashesEnd(n: nat, tail: Units)
    requires Ends(tail)
    ensures ParseArg(Slashes(n) + tail, false) == (Slashes(n), tail)
  {
    ParseIsRound(n, tail, false);
  }

  /** Text without quotes or blanks parses to itself. */
  lemma {:induction false} VerbatimParses(s: Units, tail: Units)
    requires Ends(tail) && QUOTE !in s && !HasBlank(s)
    ensures ParseArg(s + tail, false) == (s, tail)
    decreases |s|
  {
    var n := LeadingSlashes(s);
    SplitSlashes(s);
    if n == |s| {
      assert s == Slashes(n);
      SlashesEnd(n, tail);
    } else {
      var c, rest := s[n], s[n + 1..];
      BlankFreePart(s, n + 1);
      assert !Blank(c) && c in s;
      VerbatimParses(rest, tail);
      VerbatimStep(s, n, c, rest, tail);
    }
  }

  lemma VerbatimShape(s: Units, n: nat, tail: Units)
    requires n < |s|
    ensures s + tail == s[..n] + ([s[n]] + (s[n + 1..] + tail)) && s[..n] + [s[n]] + s[n + 1..] == s
  {
    assert s == s[..n] + [s[n]] + s[n + 1..];
    Regrouped(s[..n], s[n], s[n + 1..], tail);
  }

  lemma VerbatimStep(s: Units, n: nat, c: u16, rest: Units, tail: Units)
    requires c != SLASH && c != QUOTE && !Blank(c) && n < |s|
    requires s[..n] == Slashes(n) && s[n] == c && s[n + 1..] == rest && ParseArg(rest + tail, false) == (rest, tail)
    ensures ParseArg(s + tail, false) == (s, tail)
  {
    PlainUnit(n, c, rest + tail, false, rest, tail);
    VerbatimShape(s, n, tail);
  }

  lemma {:induction false} SplitSlashes(s: Units)
    ensures s[..LeadingSlashes(s)] == Slashes(LeadingSlashes(s))
  {
    if s != [] && s[0] == SLASH {
      SplitSlashes(s[1..]);
      var n := LeadingSlashes(s[1..]);
      SlashesShift(n);
      assert s[..n + 1] == [s[0]] + s[1..][..n];
    }
  }

  predicate Recoverable(s: Units) {
    QUOTE !in s || HasBlank(s)
  }

  lemma OpenQuote(inner: Units, s: Units, tail: Units)
    requires ParseArg(inner, true) == (Slashes(0) + s, tail)
    ensures ParseArg([QUOTE] + inner, false) == (s, tail)
  {
    ParseIsRound(0, [QUOTE] + inner, false);
    assert Slashes(0) + ([QUOTE] + inner) == [QUOTE] + inner;
    assert ([QUOTE] + inner)[1..] == inner;
    assert Slashes(0) + (Slashes(0) + s) == s;
  }

  lemma QuoteShape(s: Units, tail: Units)
    requires NeedsQuotes(s)
    ensures Quote(s) + tail == [QUOTE] + (Body(s, 0) + ([QUOTE] + tail))
  {
  }

  lemma QuotedParses(s: Units, tail: Units)
    requires Ends(tail) && Recoverable(s)
    ensures ParseArg(Quote(s) + tail, false) == (s, tail)
  {
    if NeedsQuotes(s) {
      BodyParses(s, 0, tail);
      OpenQuote(Body(s, 0) + ([QUOTE] + tail), s, tail);
      QuoteShape(s, tail);
    } else {
      VerbatimParses(s, tail);
    }
  }

  // ----- an argument that cannot be recovered -----

  predicate Shrinks(a: Units, length: nat, quotes: bool) {
    SPACE in a || (|a| <= length && (quotes ==> |a| < length))
  }

  lemma EndShrinks(n: nat, tail: Units, quoted: bool)
    requires Ends(tail)
    ensures Shrinks(ParseArg(Slashes(n) + tail, quoted).0, n, false)
  {
    ParseIsRound(n, tail, quoted);
  }

  lemma UnitShrinks(n: nat, c: u16, s: Units, tail: Units, quoted: bool, quotes: bool)
    requires c != SLASH && c != QUOTE && !Blank(c) && Shrinks(ParseArg(s + tail, quoted).0, |s|, quotes)
    ensures Shrinks(ParseArg(Slashes(n) + ([c] + (s + tail)), quoted).0, n + 1 + |s|, quotes)
  {
    ParseIsRound(n, [c] + (s + tail), quoted);
    assert ([c] + (s + tail))[1..] == s + tail;
  }

  lemma QuoteShrinks(n: nat, s: Units, tail: Units, quoted: bool)
    requires Ends(tail)
    requires Shrinks(ParseArg(s + tail, quoted).0, |s|, false) && Shrinks(ParseArg(s + tail, !quoted).0, |s|, false)
    requires s != [] ==> Shrinks(ParseArg(s[1..] + tail, quoted).0, |s| - 1, false)
    ensures Shrinks(ParseArg(Slashes(n) + ([QUOTE] + (s + tail)), quoted).0, n + 1 + |s|, true)
  {
    ParseIsRound(n, [QUOTE] + (s + tail), quoted);
    RoundShrinks(n, s, tail, quoted);
  }

  lemma OddShrinks(n: nat, rest: Units, quoted: bool, length: nat)
    requires n % 2 == 1 && Shrinks(ParseArg(rest, quoted).0, length, false)
    ensures Shrinks(Round(n, [QUOTE] + rest, quoted).0, n + 1 + length, true)
  {
    assert ([QUOTE] + rest)[1..] == rest;
  }

  lemma ToggleShrinks(n: nat, rest: Units, quoted: bool, length: nat)
    requires n % 2 == 0 && !(quoted && rest != [] && rest[0] == QUOTE)
    requires Shrinks(ParseArg(rest, !quoted).0, length, false)
    ensures Shrinks(Round(n, [QUOTE] + rest, quoted).0, n + 1 + length, true)
  {
    assert ([QUOTE] + rest)[1..] == rest;
  }

  lemma DoubleShrinks(n: nat, rest: Units, length: nat)
    requires n % 2 == 0 && rest != [] && rest[0] == QUOTE && length >= 1
    requires Shrinks(ParseArg(rest[1..], true).0, length - 1, false)
    ensures Shrinks(Round(n, [QUOTE] + rest, true).0, n + 1 + length, true)
  {
    assert ([QUOTE] + rest)[2..] == rest[1..];
  }

  lemma RoundShrinks(n: nat, s: Units, tail: Units, quoted: bool)
    requires Ends(tail)
    requires Shrinks(ParseArg(s + tail, quoted).0, |s|, false) && Shrinks(ParseArg(s + tail, !quoted).0, |s|, false)
    requires s != [] ==> Shrinks(ParseArg(s[1..] + tail, quoted).0, |s| - 1, false)
    ensures Shrinks(Round(n, [QUOTE] + (s + tail), quoted).0, n + 1 + |s|, true)
  {
    var rest := s + tail;
    if n % 2 == 1 {
      OddShrinks(n, rest, quoted, |s|);
    } else if quoted && rest != [] && rest[0] == QUOTE {
      assert s != [] && rest[1..] == s[1..] + tail;
      DoubleShrinks(n, rest, |s|);
    } else {
      ToggleShrinks(n, rest, quoted, |s|);
    }
  }

  /** Scanning blank-free text either loses a unit for the quotes it holds,
      or runs on over the space behind it. */
  lemma {:induction false} BlankFreeScan(s: Units, tail: Units, quoted: bool)
    requires Ends(tail) && !HasBlank(s)
    ensures Shrinks(ParseArg(s + tail, quoted).0, |s|, QUOTE in s)
    decreases |s|
  {
    var n := LeadingSlashes(s);
    SplitSlashes(s);
    NoQuote(n);
    if n == |s| {
      assert s == Slashes(n);
      EndShrinks(n, tail, quoted);
    } else {
      var c, rest := s[n], s[n + 1..];
      BlankFreePart(s, n + 1);
      assert s == Slashes(n) + [c] + rest;
      Regrouped(Slashes(n), c, rest, tail);
      BlankFreeScan(rest, tail, quoted);
      if c == QUOTE {
        BlankFreeScan(rest, tail, !quoted);
        if rest != [] {
          BlankFreePart(rest, 1);
          BlankFreeScan(rest[1..], tail, quoted);
        }
        QuoteShrinks(n, rest, tail, quoted);
      } else {
        assert !Blank(c);
        UnitShrinks(n, c, rest, tail, quoted, QUOTE in s);
      }
    }
  }

  lemma {:induction false} NoQuote(n: nat)
    ensures QUOTE !in Slashes(n)
  {
    if n > 0 {
      NoQuote(n - 1);
    }
  }

  lemma UnrecoverableIsLost(s: Units, tail: Units)
    requires Ends(tail) && !Recoverable(s)
    ensures ParseArg(Quote(s) + tail, false).0 != s
  {
    BlankFreeScan(s, tail, false);
    assert SPACE !in s by {
      if i :| 0 <= i < |s| && s[i] == SPACE {
        assert Blank(s[i]);
      }
    }
  }

  // ----- the whole line -----

  lemma TailEnds(args: seq<Units>)
    ensures Ends(Tail(args))
  {
  }

  lemma QuoteStarts(s: Units)
    ensures Quote(s) != [] && !Blank(Quote(s)[0])
  {
  }

  lemma SkipOne(p: Units)
    requires p != [] && !Blank(p[0])
    ensures ParseArgs([SPACE] + p) == ParseArgs(p)
    ensures var (a, rest) := ParseArg(p, false); ParseArgs(p) == [a] + ParseArgs(rest)
  {
    assert ([SPACE] + p)[1..] == p;
  }

  lemma ParseFirst(s: Units, tail: Units)
    ensures ParseArgs([SPACE] + Quote(s) + tail) == ParseArgs(Quote(s) + tail)
    ensures var (a, rest) := ParseArg(Quote(s) + tail, false); ParseArgs(Quote(s) + tail) == [a] + ParseArgs(rest)
  {
    QuoteStarts(s);
    assert [SPACE] + Quote(s) + tail == [SPACE] + (Quote(s) + tail);
    SkipOne(Quote(s) + tail);
  }

  /** The later arguments are recovered exactly when each of them is recoverable. */
  lemma {:induction false} TailParses(args: seq<Units>)
    ensures ParseArgs(Tail(args)) == args <==> forall i :: 0 <= i < |args| ==> Recoverable(args[i])
  {
    if args != [] {
      var tail := Tail(args[1..]);
      TailEnds(args[1..]);
      TailParses(args[1..]);
      ParseFirst(args[0], tail);
      QuoteStarts(args[0]);
      var (a, rest) := ParseArg(Quote(args[0]) + tail, false);
      if Recoverable(args[0]) {
        QuotedParses(args[0], tail);
        assert ParseArgs(Tail(args)) == [args[0]] + ParseArgs(tail);
        assert args == [args[0]] + args[1..];
      } else {
        UnrecoverableIsLost(args[0], tail);
        assert ParseArgs(Tail(args))[0] == a;
      }
    }
  }

  // ----- the program name -----

  /** Where quote toggling stands after the text, or None if a blank was met outside quotes. */
  function Toggled(s: Units, quoted: bool): Option<bool> {
    if s == [] then Some(quoted)
    else if s[0] == QUOTE then Toggled(s[1..], !quoted)
    else if !quoted && Blank(s[0]) then None
    else Toggled(s[1..], quoted)
  }

  /** The program name ends where its quoting ends. */
  predicate NameHolds(s: Units) {
    Toggled(s, NeedsQuotes(s)) == Some(NeedsQuotes(s))
  }

  lemma {:induction false} QuoteFreeNameHolds(s: Units, quoted: bool)
    requires QUOTE !in s && (!quoted ==> !HasBlank(s))
    ensures Toggled(s, quoted) == Some(quoted)
  {
    if s != [] {
      assert s[0] in s && (!quoted ==> !Blank(s[0]));
      if !quoted {
        BlankFreePart(s, 1);
      }
      QuoteFreeNameHolds(s[1..], quoted);
    }
  }

  lemma {:induction false} ToggledSplit(a: Units, b: Units, quoted: bool)
    ensures Toggled(a + b, quoted) == match Toggled(a, quoted) case None => None case Some(q) => Toggled(b, q)
  {
    if a == [] {
      assert a + b == b;
    } else {
      assert (a + b)[1..] == a[1..] + b;
      ToggledSplit(a[1..], b, if a[0] == QUOTE then !quoted else quoted);
    }
  }

  lemma {:induction false} ToggledSlashes(n: nat, quoted: bool)
    ensures Toggled(Slashes(n), quoted) == Some(quoted)
  {
    if n > 0 {
      SlashesShift(n - 1);
      ToggledSlashes(n - 1, quoted);
      assert Slashes(n)[1..] == Slashes(n - 1);
    }
  }

  /** Escaping inserts only backslashes, so it toggles as the text itself. */
  lemma {:induction false} ToggledBody(s: Units, k: nat, quoted: bool)
    ensures Toggled(Body(s, k), quoted) == Toggled(s, quoted)
    decreases |s|
  {
    if s == [] {
      ToggledSlashes(2 * k, quoted);
    } else if s[0] == SLASH {
      ToggledBody(s[1..], k + 1, quoted);
    } else {
      var n := if s[0] == QUOTE then 2 * k + 1 else k;
      var rest := Body(s[1..], 0);
      assert Body(s, k) == Slashes(n) + ([s[0]] + rest);
      ToggledSplit(Slashes(n), [s[0]] + rest, quoted);
      ToggledSlashes(n, quoted);
      assert ([s[0]] + rest)[1..] == rest;
      ToggledBody(s[1..], 0, if s[0] == QUOTE then !quoted else quoted);
    }
  }

  lemma NameTogglesOff(s: Units)
    requires NameHolds(s)
    ensures Toggled(Quote(s), false) == Some(false)
  {
    if NeedsQuotes(s) {
      var inner := Body(s, 0) + [QUOTE];
      assert Quote(s) == [QUOTE] + inner;
      assert Quote(s)[1..] == inner;
      ToggledBody(s, 0, true);
      ToggledSplit(Body(s, 0), [QUOTE], true);
    }
  }

  lemma {:induction false} ProgramStops(p: Units, quoted: bool, tail: Units)
    requires Toggled(p, quoted) == Some(false) && Ends(tail)
    ensures ParseProgram(p + tail, quoted).1 == if tail == [] then [] else tail[1..]
  {
    if p == [] {
      assert p + tail == tail;
    } else {
      assert (p + tail)[1..] == p[1..] + tail;
      ProgramStops(p[1..], if p[0] == QUOTE then !quoted else quoted, tail);
    }
  }

  lemma DropSpace(later: seq<Units>)
    ensures var tail := Tail(later); ParseArgs(if tail == [] then [] else tail[1..]) == ParseArgs(tail)
  {
    if later != [] {
      var rest := Tail(later[1..]);
      ParseFirst(later[0], rest);
      FirstDropped(Quote(later[0]), rest);
    }
  }

  lemma FirstDropped(a: Units, b: Units)
    ensures ([SPACE] + a + b)[1..] == a + b
  {
  }

  lemma NameStops(name: Units, tail: Units)
    requires NameHolds(name) && Ends(tail)
    ensures ParseProgram(Quote(name) + tail, false).1 == if tail == [] then [] else tail[1..]
  {
    NameTogglesOff(name);
    ProgramStops(Quote(name), false, tail);
  }

  lemma AfterName(line: Units)
    ensures ParseLine(line)[1..] == ParseArgs(ParseProgram(line, false).1)
  {
    var (name, rest) := ParseProgram(line, false);
    assert ([name] + ParseArgs(rest))[1..] == ParseArgs(rest);
  }

  lemma LineSplits(args: seq<Units>)
    requires args != [] && NameHolds(args[0])
    ensures ParseLine(CommandLine(args))[1..] == ParseArgs(Tail(args[1..]))
  {
    TailEnds(args[1..]);
    NameStops(args[0], Tail(args[1..]));
    AfterName(CommandLine(args));
    DropSpace(args[1..]);
  }

  /** Behind a name whose quoting closes, the later arguments come back exactly
      when each of them is recoverable. */
  lemma LaterBehindClosedName(args: seq<Units>)
    requires args != [] && NameHolds(args[0])
    ensures ParseLine(CommandLine(args))[1..] == args[1..]
       <==> forall i :: 1 <= i < |args| ==> Recoverable(args[i])
  {
    LineSplits(args);
    TailParses(args[1..]);
    assert forall i :: 1 <= i < |args| ==> args[i] == args[1..][i - 1];
    if forall i :: 1 <= i < |args| ==> Recoverable(args[i]) {
      assert forall j :: 0 <= j < |args[1..]| ==> Recoverable(args[1..][j]);
    }
  }

  /** Names without a double quote always qualify. */
  lemma QuoteFreeNames(s: Units)
    requires QUOTE !in s
    ensures NameHolds(s)
  {
    QuoteFreeNameHolds(s, NeedsQuotes(s));
  }

  // ----- the whole argument list -----

  lemma {:induction false} NamesLoseQuotes(p: Units, quoted: bool)
    ensures QUOTE !in ParseProgram(p, quoted).0
  {
    if p != [] && p[0] == QUOTE {
      NamesLoseQuotes(p[1..], !quoted);
    } else if p != [] && (quoted || !Blank(p[0])) {
      NamesLoseQuotes(p[1..], quoted);
    }
  }

  /** Text without quotes is kept as it is, up to a blank outside quotes. */
  lemma {:induction false} PlainName(p: Units, quoted: bool, tail: Units)
    requires QUOTE !in p && (!quoted ==> !HasBlank(p))
    ensures ParseProgram(p + tail, quoted).0 == p + ParseProgram(tail, quoted).0
  {
    if p == [] {
      assert p + tail == tail;
    } else {
      assert p[0] in p && (!quoted ==> !Blank(p[0]));
      if !quoted {
        BlankFreePart(p, 1);
      }
      PlainName(p[1..], quoted, tail);
      assert (p + tail)[1..] == p[1..] + tail;
      assert p == [p[0]] + p[1..];
    }
  }

  lemma SlashMoves(s: Units, k: nat)
    requires s != [] && s[0] == SLASH
    ensures Slashes(k + 1) + s[1..] == Slashes(k) + s
  {
    assert s == [SLASH] + s[1..];
  }

  lemma HeadApart(p: Units, c: u16, x: Units, y: Units)
    ensures p + [c] + x == p + ([c] + y) <==> x == y
  {
    assert p + ([c] + y) == p + [c] + y;
    SamePrefix(p + [c], x, y);
  }

  lemma PlainMoves(s: Units, k: nat, x: Units)
    requires s != [] && x == Body(s[1..], 0) && Body(s, k) == Slashes(k) + [s[0]] + x
    ensures Body(s, k) == Slashes(k) + s <==> x == s[1..]
  {
    assert s == [s[0]] + s[1..];
    HeadApart(Slashes(k), s[0], x, s[1..]);
  }

  lemma LastOfTail(s: Units)
    requires s != []
    ensures if s[1..] == [] then s[|s| - 1] == s[0] else s[1..][|s[1..]| - 1] == s[|s| - 1]
  {
  }

  /** Escaping changes a text without quotes only by doubling a final run of backslashes. */
  lemma {:induction false} BodyOfPlain(s: Units, k: nat)
    requires QUOTE !in s
    ensures QUOTE !in Body(s, k)
    ensures Body(s, k) == Slashes(k) + s <==> if s == [] then k == 0 else s[|s| - 1] != SLASH
    decreases |s|
  {
    if s == [] {
      NoQuote(2 * k);
      assert Slashes(k) + s == Slashes(k);
    } else if s[0] == SLASH {
      BodyOfPlain(s[1..], k + 1);
      SlashMoves(s, k);
      LastOfTail(s);
    } else {
      BodyOfPlain(s[1..], 0);
      NoQuote(k);
      PlainMoves(s, k, Body(s[1..], 0));
      assert Slashes(0) + s[1..] == s[1..];
      LastOfTail(s);
    }
  }

  lemma SamePrefix(a: Units, x: Units, y: Units)
    ensures a + x == a + y <==> x == y
  {
    assert (a + x)[|a|..] == x && (a + y)[|a|..] == y;
  }

  /** A name comes back when it has no quote and, if it is quoted, no final backslash. */
  predicate NameRecoverable(s: Units) {
    QUOTE !in s && (HasBlank(s) ==> s[|s| - 1] != SLASH)
  }

  lemma NameEnds(tail: Units)
    requires Ends(tail)
    ensures ParseProgram(tail, false).0 == []
  {
  }

  lemma ToggleFirst(p: Units, quoted: bool)
    ensures ParseProgram([QUOTE] + p, quoted) == ParseProgram(p, !quoted)
  {
    assert ([QUOTE] + p)[1..] == p;
  }

  lemma QuotedNameParses(body: Units, tail: Units)
    requires QUOTE !in body && Ends(tail)
    ensures ParseProgram([QUOTE] + body + [QUOTE] + tail, false).0 == body
  {
    var closed := [QUOTE] + tail;
    assert [QUOTE] + body + [QUOTE] + tail == [QUOTE] + (body + closed);
    ToggleFirst(body + closed, false);
    PlainName(body, true, closed);
    ToggleFirst(tail, true);
    NameEnds(tail);
  }

  lemma EscapedNameParses(name: Units, tail: Units)
    requires QUOTE !in name && Ends(tail)
    ensures ParseProgram([QUOTE] + Body(name, 0) + [QUOTE] + tail, false).0 == name
       <==> name == [] || name[|name| - 1] != SLASH
  {
    BodyOfPlain(name, 0);
    QuotedNameParses(Body(name, 0), tail);
    assert Slashes(0) + name == name;
  }

  lemma BareNameParses(name: Units, tail: Units)
    requires QUOTE !in name && !HasBlank(name) && Ends(tail)
    ensures ParseProgram(name + tail, false).0 == name
  {
    PlainName(name, false, tail);
    NameEnds(tail);
  }

  lemma PlainNameParses(name: Units, tail: Units)
    requires QUOTE !in name && Ends(tail)
    ensures ParseProgram(Quote(name) + tail, false).0 == name <==> NameRecoverable(name)
  {
    if name == [] || HasBlank(name) {
      EscapedNameParses(name, tail);
    } else {
      BareNameParses(name, tail);
    }
  }

  lemma NameRecovered(name: Units, tail: Units)
    requires Ends(tail)
    ensures ParseProgram(Quote(name) + tail, false).0 == name <==> NameRecoverable(name)
  {
    if QUOTE in name {
      NamesLoseQuotes(Quote(name) + tail, false);
    } else {
      PlainNameParses(name, tail);
    }
  }

  /** Splitting the built line gives back the whole argument list exactly when
      the name has no quote and no final backslash behind a blank, and every
      later argument with a quote has a blank too. */
  lemma LineRoundTrips(args: seq<Units>)
    requires args != []
    ensures ParseLine(CommandLine(args)) == args
       <==> NameRecoverable(args[0]) && forall i :: 1 <= i < |args| ==> Recoverable(args[i])
  {
    var line := CommandLine(args);
    TailEnds(args[1..]);
    NameRecovered(args[0], Tail(args[1..]));
    assert ParseLine(line)[0] == ParseProgram(line, false).0;
    if NameRecoverable(args[0]) {
      QuoteFreeNames(args[0]);
      LaterBehindClosedName(args);
      assert ParseLine(line) == [ParseLine(line)[0]] + ParseLine(line)[1..];
      assert args == [args[0]] + args[1..];
    }
  }

  /** A quote without a blank is written bare, and the runtime drops it:
      the one-unit argument `"` does not come back. */
  lemma BareQuoteIsLost(name: Units)
    requires NameHolds(name)
    ensures ParseLine(CommandLine([name, [QUOTE]]))[1..] != [[QUOTE]]
  {
    var args := [name, [QUOTE]];
    LaterBehindClosedName(args);
    assert args[1..] == [[QUOTE]];
    assert !Recoverable(args[1]);
  }

  /** A name whose quoting does not close swallows what follows it: after the
      name `"` the argument `a` is lost. */
  lemma OpenNameSwallows()
    ensures !NameHolds([QUOTE])
    ensures ParseLine(CommandLine([[QUOTE], [97]])) == [[SPACE, 97]]
  {
    var line := CommandLine([[QUOTE], [97]]);
    assert !HasBlank([97]) && !HasBlank([QUOTE]);
    assert Toggled([QUOTE], false) == Some(true) by {
      assert [QUOTE][1..] == [];
    }
    assert line == [QUOTE, SPACE, 97] by {
      assert [[QUOTE], [97]][1..] == [[97]] && [[97]][1..] == [];
    }
    KeepUnit(97, [], true, [], []);
    assert [97] + [] == [97];
    KeepUnit(SPACE, [97], true, [97], []);
    assert line[1..] == [SPACE] + [97];
    assert ParseProgram(line, false) == ([SPACE, 97], []);
  }

  lemma KeepUnit(c: u16, rest: Units, quoted: bool, name: Units, after: Units)
    requires c != QUOTE && (quoted || !Blank(c)) && ParseProgram(rest, quoted) == (name, after)
    ensures ParseProgram([c] + rest, quoted) == ([c] + name, after)
  {
    assert ([c] + rest)[1..] == rest;
  }

  // ----- the loops -----

  method HasAnyBlank(units: Units) returns (found: bool)
    ensures found <==> HasBlank(units)
  {
    for i := 0 to |units|
      invariant forall k :: 0 <= k < i ==> !Blank(units[k])
    {
      if Blank(units[i]) {
        return true;
      }
    }
    return false;
  }

  /** One pass with a count of pending backslashes. */
  method QuoteBody(value: Units, output: Units) returns (r: Units)
    ensures r == output + Body(value, 0)
  {
    r := output;
    var slashes := 0;
    assert value[0..] == value;
    for i := 0 to |value|
      invariant r + Body(value[i..], slashes) == output + Body(value, 0)
    {
      BodyStep(value, i, slashes, r);
      if value[i] == SLASH {
        slashes := slashes + 1;
      } else if value[i] == QUOTE {
        r := r + Slashes(slashes * 2 + 1) + [value[i]];
        slashes := 0;
      } else {
        r := r + Slashes(slashes) + [value[i]];
        slashes := 0;
      }
    }
    assert value[|value|..] == [];
    r := r + Slashes(slashes * 2);
  }

  /** `quote_argument` appends exactly the quoted form. */
  method QuoteArgument(value: Units, output: Units) returns (r: Units)
    ensures r == output + Quote(value)
    ensures value != [] && 32 !in value && 9 !in value ==> r == output + value
    ensures value == [] || 32 in value || 9 in value ==>
              |output| + 2 <= |r| && r[..|output|] == output && r[|output|] == 34 && r[|r| - 1] == 34
  {
    var blank := HasAnyBlank(value);
    if value != [] && !blank {
      return output + value;
    }
    r := QuoteBody(value, output + [QUOTE]);
    assert r + [QUOTE] == output + ([QUOTE] + Body(value, 0) + [QUOTE]);
    r := r + [QUOTE];
  }

  lemma BodyStep(value: Units, i: nat, k: nat, r: Units)
    requires i < |value|
    ensures r + Body(value[i..], k) ==
              if value[i] == SLASH then r + Body(value[i + 1..], k + 1)
              else if value[i] == QUOTE then (r + Slashes(k * 2 + 1) + [QUOTE]) + Body(value[i + 1..], 0)
              else (r + Slashes(k) + [value[i]]) + Body(value[i + 1..], 0)
  {
    var s := value[i..];
    assert s[0] == value[i] && s[1..] == value[i + 1..];
    StepBody(r, Slashes(2 * k + 1), QUOTE, Body(value[i + 1..], 0));
    StepBody(r, Slashes(k), value[i], Body(value[i + 1..], 0));
  }

  lemma StepBody(r: Units, slashes: Units, c: u16, rest: Units)
    ensures r + (slashes + [c] + rest) == (r + slashes + [c]) + rest
  {
  }

  /** `command_line_exact`: the arguments behind single spaces, then a zero. */
  method CommandLineExact(arguments: seq<Units>) returns (line: Units)
    ensures line == CommandLine(arguments) + [0]
  {
    line := [];
    for i := 0 to |arguments|
      invariant line == CommandLine(arguments[..i])
    {
      LineGrows(arguments, i);
      if i != 0 {
        line := line + [SPACE];
      }
      line := QuoteArgument(arguments[i], line);
    }
    assert arguments[..|arguments|] == arguments;
    line := line + [0];
  }

  lemma {:induction false} TailGrows(args: seq<Units>, last: Units)
    ensures Tail(args + [last]) == Tail(args) + ([SPACE] + Quote(last))
  {
    if args == [] {
      assert args + [last] == [last] && [last][1..] == [];
    } else {
      assert (args + [last])[1..] == args[1..] + [last];
      TailGrows(args[1..], last);
    }
  }

  lemma LineGrows(args: seq<Units>, i: nat)
    requires i < |args|
    ensures CommandLine(args[..i + 1]) == CommandLine(args[..i]) + (if i == 0 then [] else [SPACE]) + Quote(args[i])
  {
    if i == 0 {
      assert args[..1][1..] == [];
    } else {
      assert args[..i + 1][1..] == args[..i][1..] + [args[i]];
      TailGrows(args[..i][1..], args[i]);
    }
  }
}
