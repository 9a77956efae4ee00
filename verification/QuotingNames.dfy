/** What becomes of the later arguments behind any program name. */
module QuotingNames {
  import opened Machine
  import opened Quoting

  // ----- counting units that quoting neither adds nor removes -----

  function Plain(p: Units): nat {
    if p == [] then 0 else (if p[0] == SLASH || p[0] == QUOTE then 0 else 1) + Plain(p[1..])
  }

  lemma {:induction false} PlainSplit(a: Units, b: Units)
    ensures Plain(a + b) == Plain(a) + Plain(b)
  {
    if a == [] {
      assert a + b == b;
    } else {
      assert (a + b)[1..] == a[1..] + b;
      PlainSplit(a[1..], b);
    }
  }

  lemma {:induction false} PlainSlashes(n: nat)
    ensures Plain(Slashes(n)) == 0
  {
    if n > 0 {
      SlashesShift(n - 1);
      PlainSlashes(n - 1);
      assert Slashes(n)[1..] == Slashes(n - 1);
    }
  }

  lemma PlainOne(u: u16)
    ensures Plain([u]) == if u == SLASH || u == QUOTE then 0 else 1
  {
    assert [u][1..] == [];
  }

  lemma PlainPieces(n: nat, u: u16, rest: Units)
    ensures Plain(Slashes(n) + [u] + rest) == (if u == SLASH || u == QUOTE then 0 else 1) + Plain(rest)
    ensures Plain(Slashes(n) + rest) == Plain(rest)
  {
    PlainSplit(Slashes(n) + [u], rest);
    PlainSplit(Slashes(n), [u]);
    PlainSplit(Slashes(n), rest);
    PlainSlashes(n);
    PlainOne(u);
  }

  lemma {:induction false} BodyKeepsPlain(s: Units, k: nat)
    ensures Plain(Body(s, k)) == Plain(s)
    decreases |s|
  {
    if s == [] {
      PlainSlashes(2 * k);
    } else if s[0] == SLASH {
      BodyKeepsPlain(s[1..], k + 1);
    } else {
      BodyKeepsPlain(s[1..], 0);
      PlainPieces(if s[0] == QUOTE then 2 * k + 1 else k, s[0], Body(s[1..], 0));
    }
  }

  lemma QuoteKeepsPlain(s: Units)
    ensures Plain(Quote(s)) == Plain(s)
  {
    if NeedsQuotes(s) {
      BodyKeepsPlain(s, 0);
      PlainSplit([QUOTE] + Body(s, 0), [QUOTE]);
      PlainSplit([QUOTE], Body(s, 0));
      PlainOne(QUOTE);
    }
  }

  /** Each argument with the blank that sets it off. */
  function Weight(args: seq<Units>): nat {
    if args == [] then 0 else Plain(args[0]) + 1 + Weight(args[1..])
  }

  lemma {:induction false} TailWeighs(args: seq<Units>)
    ensures Plain(Tail(args)) == Weight(args)
  {
    if args != [] {
      TailWeighs(args[1..]);
      QuoteKeepsPlain(args[0]);
      PlainSplit([SPACE] + Quote(args[0]), Tail(args[1..]));
      PlainSplit([SPACE], Quote(args[0]));
      PlainOne(SPACE);
    }
  }

  // ----- scanning loses nothing but separators -----

  lemma Pieces(p: Units)
    ensures Plain(p) == Plain(p[LeadingSlashes(p)..])
  {
    var n := LeadingSlashes(p);
    SplitSlashes(p);
    assert p == p[..n] + p[n..];
    PlainSplit(p[..n], p[n..]);
    PlainSlashes(n);
  }

  ghost predicate Splits(p: Units, r: (Units, Units)) {
    Plain(r.0) + Plain(r.1) == Plain(p) && (r.1 == [] || Blank(r.1[0]))
  }

  lemma {:induction false} ArgKeepsPlain(p: Units, quoted: bool)
    ensures Splits(p, ParseArg(p, quoted))
    decreases |p|
  {
    var n := LeadingSlashes(p);
    Pieces(p);
    var q := p[n..];
    if q == [] || (!quoted && Blank(q[0])) {
      PlainSlashes(n);
    } else if q[0] == QUOTE && n % 2 == 0 && quoted && |q| > 1 && q[1] == QUOTE {
      ArgKeepsPlain(q[2..], quoted);
      assert q[1..][1..] == q[2..];
      PlainPieces(n / 2, QUOTE, ParseArg(q[2..], quoted).0);
    } else if q[0] == QUOTE {
      var after := if n % 2 == 1 then quoted else !quoted;
      ArgKeepsPlain(q[1..], after);
      PlainPieces(n / 2, QUOTE, ParseArg(q[1..], after).0);
    } else {
      ArgKeepsPlain(q[1..], quoted);
      PlainPieces(n, q[0], ParseArg(q[1..], quoted).0);
    }
  }

  predicate Apart(p: Units) {
    p == [] || Blank(p[0])
  }

  lemma {:induction false} SkippedPlain(p: Units)
    ensures Plain(SkipBlanks(p)) + (if p != [] && Blank(p[0]) then 1 else 0) <= Plain(p)
  {
    if p != [] && Blank(p[0]) {
      SkippedPlain(p[1..]);
    }
  }

  /** The arguments split from a text weigh no more than it, and one blank less if it starts with none. */
  lemma {:induction false} ArgsWeigh(p: Units)
    ensures Weight(ParseArgs(p)) <= Plain(p) + if Apart(p) then 0 else 1
    decreases |p|
  {
    var q := SkipBlanks(p);
    SkippedPlain(p);
    if q != [] {
      var (a, rest) := ParseArg(q, false);
      ArgKeepsPlain(q, false);
      ArgsWeigh(rest);
      assert ([a] + ParseArgs(rest))[1..] == ParseArgs(rest);
    }
  }

  lemma {:induction false} NameWeighs(p: Units, quoted: bool)
    ensures ParseProgram(p, quoted).1 == [] || Plain(ParseProgram(p, quoted).1) + 1 <= Plain(p)
  {
    if p != [] {
      if p[0] == QUOTE {
        NameWeighs(p[1..], !quoted);
      } else if quoted || !Blank(p[0]) {
        NameWeighs(p[1..], quoted);
      }
    }
  }

  // ----- a name left open swallows what follows -----

  lemma {:induction false} NameGoesOn(p: Units, quoted: bool, tail: Units)
    requires Toggled(p, quoted).Some?
    ensures ParseProgram(p + tail, quoted).1 == ParseProgram(tail, Toggled(p, quoted).value).1
  {
    if p == [] {
      assert p + tail == tail;
    } else {
      assert (p + tail)[1..] == p[1..] + tail;
      NameGoesOn(p[1..], if p[0] == QUOTE then !quoted else quoted, tail);
    }
  }

  lemma OpenNameLoses(name: Units, later: seq<Units>)
    requires Toggled(Quote(name), false) == Some(true) && later != []
    ensures ParseLine(CommandLine([name] + later))[1..] != later
  {
    var tail := Tail(later);
    var line := Quote(name) + tail;
    assert ([name] + later)[1..] == later;
    AfterName(line);
    NameGoesOn(Quote(name), false, tail);
    var rest := ParseProgram(tail, true).1;
    var inner := tail[1..];
    assert tail == [SPACE] + inner;
    assert rest == ParseProgram(inner, true).1;
    NameWeighs(inner, true);
    PlainSplit([SPACE], inner);
    PlainOne(SPACE);
    TailWeighs(later);
    ArgsWeigh(rest);
  }

  // ----- where quoting stands after a text -----

  /** Whether the scan of one argument is inside quotes at the end of a text it takes up whole. */
  function ArgOpen(p: Units, quoted: bool): bool
    decreases |p|
  {
    var n := LeadingSlashes(p);
    var q := p[n..];
    if q == [] then quoted
    else if q[0] == QUOTE then
      if n % 2 == 1 then ArgOpen(q[1..], quoted)
      else if quoted && |q| > 1 && q[1] == QUOTE then ArgOpen(q[2..], quoted)
      else ArgOpen(q[1..], !quoted)
    else if !quoted && Blank(q[0]) then false
    else ArgOpen(q[1..], quoted)
  }

  function ArgsOpen(p: Units): bool
    decreases |p|
  {
    var q := SkipBlanks(p);
    if q == [] then false
    else
      var rest := ParseArg(q, false).1;
      if rest == [] then ArgOpen(q, false) else ArgsOpen(rest)
  }

  /** What a scan that found `r` makes of its text going on with a space, given what `after` the space it finds. */
  function On(r: (Units, Units), open: bool, x: Units, after: (Units, Units)): (Units, Units) {
    if r.1 != [] then (r.0, r.1 + x)
    else if open then (r.0 + [SPACE] + after.0, after.1)
    else (r.0, x)
  }

  lemma PrefixOn(pre: Units, r: (Units, Units), open: bool, x: Units, after: (Units, Units))
    ensures On((pre + r.0, r.1), open, x, after) == (pre + On(r, open, x, after).0, On(r, open, x, after).1)
  {
    assert pre + (r.0 + [SPACE] + after.0) == (pre + r.0) + [SPACE] + after.0;
  }

  lemma {:induction false} LeadingMore(p: Units, x: Units)
    requires x != [] && x[0] != SLASH
    ensures LeadingSlashes(p + x) == LeadingSlashes(p)
  {
    if p == [] {
      assert p + x == x;
    } else if p[0] == SLASH {
      assert (p + x)[1..] == p[1..] + x;
      LeadingMore(p[1..], x);
    }
  }

  lemma SlashesThenSpace(n: nat, z: Units, quoted: bool)
    ensures Round(n, [SPACE] + z, quoted) == On((Slashes(n), []), quoted, [SPACE] + z, ParseArg(z, true))
  {
    assert ([SPACE] + z)[1..] == z;
  }

  lemma TailOf(q: Units, x: Units, k: nat)
    requires k <= |q|
    ensures (q + x)[k..] == q[k..] + x && (k > 0 ==> (q + x)[0] == q[0]) && (k > 1 ==> (q + x)[1] == q[1])
  {
  }

  /** Where a round goes on, what it puts in front, and in which state. */
  datatype Peel = Peel(pre: Units, k: nat, quoted: bool)

  predicate Peelable(q: Units, quoted: bool) {
    q != [] && (q[0] == QUOTE || quoted || !Blank(q[0]))
  }

  function PeelOf(n: nat, q: Units, quoted: bool): Peel
    requires q != []
  {
    if q[0] == QUOTE then
      if n % 2 == 1 then Peel(Slashes(n / 2) + [QUOTE], 1, quoted)
      else if quoted && |q| > 1 && q[1] == QUOTE then Peel(Slashes(n / 2) + [QUOTE], 2, quoted)
      else Peel(Slashes(n / 2), 1, !quoted)
    else Peel(Slashes(n) + [q[0]], 1, quoted)
  }

  lemma RoundPeels(n: nat, q: Units, quoted: bool, l: Peel)
    requires Peelable(q, quoted) && l == PeelOf(n, q, quoted)
    ensures l.k <= |q|
    ensures Round(n, q, quoted) == (l.pre + ParseArg(q[l.k..], l.quoted).0, ParseArg(q[l.k..], l.quoted).1)
  {
  }

  lemma OpenPeels(p: Units, quoted: bool, n: nat, q: Units, l: Peel)
    requires n == LeadingSlashes(p) && q == p[n..] && Peelable(q, quoted)
    requires l == PeelOf(n, q, quoted)
    ensures l.k <= |q| && ArgOpen(p, quoted) == ArgOpen(q[l.k..], l.quoted)
  {
  }

  lemma SamePeel(n: nat, q: Units, x: Units, quoted: bool)
    requires q != [] && x != [] && x[0] == SPACE
    ensures PeelOf(n, q + x, quoted) == PeelOf(n, q, quoted)
  {
    if |q| == 1 {
      assert (q + x)[1] == SPACE;
    }
  }

  lemma RoundOn(p: Units, x: Units, quoted: bool, n: nat, q: Units)
    requires x != [] && x[0] != SLASH && n == LeadingSlashes(p) && q == p[n..]
    ensures ParseArg(p + x, quoted) == Round(n, q + x, quoted) && ParseArg(p, quoted) == Round(n, q, quoted)
  {
    SplitSlashes(p);
    assert p == Slashes(n) + q && p + x == Slashes(n) + (q + x);
    ParseIsRound(n, q, quoted);
    ParseIsRound(n, q + x, quoted);
  }

  lemma PeeledGoesOn(n: nat, q: Units, x: Units, quoted: bool, l: Peel, open: bool, after: (Units, Units))
    requires Peelable(q, quoted) && x != [] && x[0] == SPACE
    requires l == PeelOf(n, q, quoted) && l.k <= |q|
    requires ParseArg(q[l.k..] + x, l.quoted) == On(ParseArg(q[l.k..], l.quoted), open, x, after)
    ensures Round(n, q + x, quoted) == On(Round(n, q, quoted), open, x, after)
  {
    SamePeel(n, q, x, quoted);
    RoundPeels(n, q, quoted, l);
    RoundPeels(n, q + x, quoted, l);
    TailOf(q, x, l.k);
    PrefixOn(l.pre, ParseArg(q[l.k..], l.quoted), open, x, after);
  }

  lemma StoppedGoesOn(p: Units, quoted: bool, z: Units)
    requires !Peelable(p[LeadingSlashes(p)..], quoted)
    ensures ParseArg(p + ([SPACE] + z), quoted)
         == On(ParseArg(p, quoted), ArgOpen(p, quoted), [SPACE] + z, ParseArg(z, true))
  {
    var x, n := [SPACE] + z, LeadingSlashes(p);
    var q := p[n..];
    RoundOn(p, x, quoted, n, q);
    if q == [] {
      assert q + x == x;
      SlashesThenSpace(n, z, quoted);
    }
  }

  lemma PeelStep(p: Units, quoted: bool, x: Units, q: Units, l: Peel, open: bool, after: (Units, Units))
    requires q == p[LeadingSlashes(p)..] && Peelable(q, quoted) && x != [] && x[0] == SPACE
    requires l == PeelOf(LeadingSlashes(p), q, quoted) && l.k <= |q|
    requires ParseArg(q[l.k..] + x, l.quoted) == On(ParseArg(q[l.k..], l.quoted), open, x, after)
    ensures ParseArg(p + x, quoted) == On(ParseArg(p, quoted), open, x, after)
  {
    RoundOn(p, x, quoted, LeadingSlashes(p), q);
    PeeledGoesOn(LeadingSlashes(p), q, x, quoted, l, open, after);
  }

  lemma ScanStep(p: Units, quoted: bool, x: Units, q: Units, l: Peel, after: (Units, Units))
    requires q == p[LeadingSlashes(p)..] && Peelable(q, quoted) && x != [] && x[0] == SPACE
    requires l == PeelOf(LeadingSlashes(p), q, quoted) && l.k <= |q|
    requires ParseArg(q[l.k..] + x, l.quoted) == On(ParseArg(q[l.k..], l.quoted), ArgOpen(q[l.k..], l.quoted), x, after)
    ensures ParseArg(p + x, quoted) == On(ParseArg(p, quoted), ArgOpen(p, quoted), x, after)
  {
    OpenPeels(p, quoted, LeadingSlashes(p), q, l);
    PeelStep(p, quoted, x, q, l, ArgOpen(p, quoted), after);
  }

  lemma PeelFits(n: nat, q: Units, quoted: bool)
    requires q != []
    ensures 0 < PeelOf(n, q, quoted).k <= |q|
  {
  }

  /** A scan goes on over a space inside quotes, and ends at it outside. */
  lemma {:induction false} ScanGoesOn(p: Units, quoted: bool, z: Units)
    ensures ParseArg(p + ([SPACE] + z), quoted)
         == On(ParseArg(p, quoted), ArgOpen(p, quoted), [SPACE] + z, ParseArg(z, true))
    decreases |p|
  {
    var n := LeadingSlashes(p);
    var q := p[n..];
    if Peelable(q, quoted) {
      var l := PeelOf(n, q, quoted);
      PeelFits(n, q, quoted);
      ScanGoesOn(q[l.k..], l.quoted, z);
      ScanStep(p, quoted, [SPACE] + z, q, l, ParseArg(z, true));
    } else {
      StoppedGoesOn(p, quoted, z);
    }
  }

  // ----- a whole text that goes on -----

  lemma {:induction false} SkipGoesOn(p: Units, x: Units)
    requires x != []
    ensures SkipBlanks(p + x) == if SkipBlanks(p) == [] then SkipBlanks(x) else SkipBlanks(p) + x
  {
    if p == [] {
      assert p + x == x;
    } else {
      assert (p + x)[1..] == p[1..] + x;
      if Blank(p[0]) {
        SkipGoesOn(p[1..], x);
      }
    }
  }

  lemma SkipSpace(z: Units)
    ensures SkipBlanks([SPACE] + z) == SkipBlanks(z) && ParseArgs([SPACE] + z) == ParseArgs(z)
  {
    assert ([SPACE] + z)[1..] == z;
  }

  lemma SameSkip(p: Units, x: Units)
    requires SkipBlanks(p) == SkipBlanks(x)
    ensures ParseArgs(p) == ParseArgs(x)
  {
  }

  lemma ArgsFrom(p: Units, q: Units, a: Units, rest: Units)
    requires SkipBlanks(p) == q != [] && ParseArg(q, false) == (a, rest)
    ensures ParseArgs(p) == [a] + ParseArgs(rest)
  {
  }

  lemma FirstGoesOn(p: Units, z: Units, q: Units, g: (Units, Units))
    requires SkipBlanks(p) == q != [] && g == On(ParseArg(q, false), ArgOpen(q, false), [SPACE] + z, ParseArg(z, true))
    ensures ParseArgs(p + ([SPACE] + z)) == [g.0] + ParseArgs(g.1)
  {
    var x := [SPACE] + z;
    SkipGoesOn(p, x);
    ScanGoesOn(q, false, z);
    ArgsFrom(p + x, q + x, g.0, g.1);
  }

  lemma Joined(a: Units, b: seq<Units>, c: seq<Units>)
    ensures [a] + (b + c) == ([a] + b) + c
  {
  }

  /** Outside quotes at the space, the two parts split on their own. */
  lemma {:induction false} ClosedSplits(p: Units, z: Units)
    requires !ArgsOpen(p)
    ensures ParseArgs(p + ([SPACE] + z)) == ParseArgs(p) + ParseArgs(z)
    decreases |p|
  {
    var q := SkipBlanks(p);
    SkipSpace(z);
    if q == [] {
      SkipGoesOn(p, [SPACE] + z);
      SameSkip(p + ([SPACE] + z), z);
      assert [] + ParseArgs(z) == ParseArgs(z);
    } else {
      var (a, rest) := ParseArg(q, false);
      ArgsFrom(p, q, a, rest);
      if rest != [] {
        ClosedSplits(rest, z);
        FirstGoesOn(p, z, q, (a, rest + ([SPACE] + z)));
        Joined(a, ParseArgs(rest), ParseArgs(z));
      } else {
        FirstGoesOn(p, z, q, (a, [SPACE] + z));
      }
    }
  }

  /** Inside quotes at the space, it becomes part of an argument that runs on. */
  lemma {:induction false} OpenRunsOn(p: Units, z: Units) returns (before: seq<Units>, w: Units)
    requires ArgsOpen(p)
    ensures ParseArgs(p + ([SPACE] + z))
         == before + ([w + [SPACE] + ParseArg(z, true).0] + ParseArgs(ParseArg(z, true).1))
    decreases |p|
  {
    var q := SkipBlanks(p);
    var (a, rest) := ParseArg(q, false);
    if rest != [] {
      FirstGoesOn(p, z, q, (a, rest + ([SPACE] + z)));
      var inner;
      inner, w := OpenRunsOn(rest, z);
      before := [a] + inner;
      Joined(a, inner, [w + [SPACE] + ParseArg(z, true).0] + ParseArgs(ParseArg(z, true).1));
    } else {
      FirstGoesOn(p, z, q, (a + [SPACE] + ParseArg(z, true).0, ParseArg(z, true).1));
      before, w := [], a;
    }
  }

  // ----- the last argument decides -----

  lemma {:induction false} BlankFreeIsTaken(s: Units, quoted: bool)
    requires !HasBlank(s)
    ensures ParseArg(s, quoted).1 == []
    decreases |s|
  {
    var n := LeadingSlashes(s);
    var q := s[n..];
    if q != [] {
      assert !Blank(s[n]);
      BlankFreePart(s, n + 1);
      assert q[1..] == s[n + 1..];
      BlankFreeIsTaken(q[1..], quoted);
      BlankFreeIsTaken(q[1..], !quoted);
      if |q| > 1 {
        BlankFreePart(s, n + 2);
        assert q[2..] == s[n + 2..];
        BlankFreeIsTaken(q[2..], quoted);
      }
    }
  }

  lemma NothingLeft(p: Units)
    requires p != [] && !Blank(p[0]) && ParseArg(p, false).1 == []
    ensures |ParseArgs(p)| == 1
  {
    assert SkipBlanks(p) == p && ParseArgs([]) == [];
  }

  lemma QuoteIsOne(s: Units)
    ensures |ParseArgs(Quote(s))| == 1
  {
    QuoteStarts(s);
    if NeedsQuotes(s) {
      QuotedParses(s, []);
      assert Quote(s) + [] == Quote(s);
    } else {
      BlankFreeIsTaken(s, false);
    }
    NothingLeft(Quote(s));
  }

  predicate AllBlankFree(args: seq<Units>) {
    forall i :: 0 <= i < |args| ==> !HasBlank(args[i])
  }

  lemma SlashesHaveNoBlank(n: nat)
    ensures !HasBlank(Slashes(n))
  {
    forall i | 0 <= i < n ensures Slashes(n)[i] == SLASH {
      SlashAt(n, i);
    }
  }

  lemma {:induction false} SlashAt(n: nat, i: nat)
    requires i < n
    ensures Slashes(n)[i] == SLASH
  {
    if i < n - 1 {
      SlashAt(n - 1, i);
    }
  }

  lemma NoBlankJoin(a: Units, u: u16, b: Units)
    requires !HasBlank(a) && !Blank(u) && !HasBlank(b)
    ensures !HasBlank(a + [u] + b) && !HasBlank(a + b)
  {
  }

  /** What is left of escaped text when its scan outside quotes stops at a blank. */
  ghost predicate LeftOver(s: Units, rest: Units) {
    exists j :: 0 < j <= |s| && rest == [s[j - 1]] + (Body(s[j..], 0) + [QUOTE]) && Blank(s[j - 1])
  }

  lemma LeftOverLater(s: Units, rest: Units)
    requires s != [] && LeftOver(s[1..], rest)
    ensures LeftOver(s, rest)
  {
    var j :| 0 < j <= |s[1..]| && rest == [s[1..][j - 1]] + (Body(s[1..][j..], 0) + [QUOTE]) && Blank(s[1..][j - 1]);
    assert s[1..][j..] == s[j + 1..];
    assert s[j + 1 - 1] == s[1..][j - 1];
  }

  ghost predicate Piece(s: Units, r: (Units, Units)) {
    !HasBlank(r.0) && (if HasBlank(s) then LeftOver(s, r.1) else r.1 == [])
  }

  lemma HasBlankLater(s: Units)
    requires s != [] && !Blank(s[0])
    ensures HasBlank(s) <==> HasBlank(s[1..])
  {
    if HasBlank(s) {
      var i :| 0 <= i < |s| && Blank(s[i]);
      assert Blank(s[1..][i - 1]);
    }
  }

  lemma LaterPiece(s: Units, pre: Units, r: (Units, Units))
    requires s != [] && !Blank(s[0]) && Piece(s[1..], r) && !HasBlank(pre)
    ensures Piece(s, (pre + r.0, r.1))
  {
    HasBlankLater(s);
    NoBlankJoin(pre, SLASH, r.0);
    if HasBlank(s) {
      LeftOverLater(s, r.1);
    }
  }

  /** Outside quotes, escaped text is scanned up to its first blank. */
  lemma {:induction false} BodyPiece(s: Units, k: nat)
    ensures Piece(s, ParseArg(Body(s, k) + [QUOTE], false))
    decreases |s|
  {
    SlashesHaveNoBlank(k);
    if s == [] {
      EmptyBody(k);
    } else if s[0] == SLASH {
      BodyPiece(s[1..], k + 1);
      LaterPiece(s, [], ParseArg(Body(s[1..], k + 1) + [QUOTE], false));
      assert [] + ParseArg(Body(s, k) + [QUOTE], false).0 == ParseArg(Body(s, k) + [QUOTE], false).0;
    } else {
      var rest := Body(s[1..], 0) + [QUOTE];
      BodyPiece(s[1..], 0);
      var r := ParseArg(rest, false);
      if s[0] == QUOTE {
        Regrouped(Slashes(2 * k + 1), QUOTE, Body(s[1..], 0), [QUOTE]);
        EscapedOutside(k, rest);
        NoBlankJoin(Slashes(k), QUOTE, []);
        assert Slashes(k) + [QUOTE] + [] == Slashes(k) + [QUOTE];
        LaterPiece(s, Slashes(k) + [QUOTE], r);
      } else {
        Regrouped(Slashes(k), s[0], Body(s[1..], 0), [QUOTE]);
        if Blank(s[0]) {
          StopsAt(k, s[0], rest);
          assert s[1..] == s[1..] && Blank(s[1 - 1]);
        } else {
          PlainUnit(k, s[0], rest, false, r.0, r.1);
          NoBlankJoin(Slashes(k), s[0], []);
          assert Slashes(k) + [s[0]] + [] == Slashes(k) + [s[0]];
          LaterPiece(s, Slashes(k) + [s[0]], r);
        }
      }
    }
  }

  lemma EmptyBody(k: nat)
    ensures ParseArg(Body([], k) + [QUOTE], false) == (Slashes(k), [])
  {
    EvenHalf(k);
    ParseIsRound(2 * k, [QUOTE], false);
    assert [QUOTE][1..] == [] && Slashes(k) + [] == Slashes(k);
  }

  lemma EscapedOutside(k: nat, rest: Units)
    ensures ParseArg(Slashes(2 * k + 1) + ([QUOTE] + rest), false)
         == (Slashes(k) + [QUOTE] + ParseArg(rest, false).0, ParseArg(rest, false).1)
  {
    OddHalf(k);
    ParseIsRound(2 * k + 1, [QUOTE] + rest, false);
    assert ([QUOTE] + rest)[1..] == rest;
  }

  lemma StopsAt(k: nat, b: u16, rest: Units)
    requires Blank(b)
    ensures ParseArg(Slashes(k) + ([b] + rest), false) == (Slashes(k), [b] + rest)
  {
    ParseIsRound(k, [b] + rest, false);
  }

  /** Escaped text scanned outside quotes falls apart at its blanks. */
  lemma {:induction false} BodyFallsApart(s: Units)
    ensures AllBlankFree(ParseArgs(Body(s, 0) + [QUOTE])) && ParseArgs(Body(s, 0) + [QUOTE]) != []
    decreases |s|
  {
    var p := Body(s, 0) + [QUOTE];
    if s != [] && Blank(s[0]) {
      BodyFallsApart(s[1..]);
      assert p == [s[0]] + (Body(s[1..], 0) + [QUOTE]);
      SkipBlank(s[0], Body(s[1..], 0) + [QUOTE]);
    } else {
      BodyStarts(s);
      BodyPiece(s, 0);
      var (a, rest) := ParseArg(p, false);
      ArgsFrom(p, p, a, rest);
      if HasBlank(s) {
        var j :| 0 < j <= |s| && rest == [s[j - 1]] + (Body(s[j..], 0) + [QUOTE]) && Blank(s[j - 1]);
        BodyFallsApart(s[j..]);
        SkipBlank(s[j - 1], Body(s[j..], 0) + [QUOTE]);
      }
    }
  }

  lemma SkipBlank(b: u16, p: Units)
    requires Blank(b)
    ensures ParseArgs([b] + p) == ParseArgs(p)
  {
    assert ([b] + p)[1..] == p;
  }

  lemma {:induction false} BodyHead(s: Units, k: nat)
    ensures s == [] && k == 0 ==> Body(s, k) == []
    ensures s != [] || k > 0 ==> Body(s, k) != [] && Body(s, k)[0] != QUOTE
    ensures k > 0 || (s != [] && !Blank(s[0])) ==> !Blank(Body(s, k)[0])
    decreases |s|
  {
    if k > 0 {
      SlashAt(k, 0);
      SlashAt(2 * k, 0);
    }
    SlashAt(2 * k + 1, 0);
    if s != [] && s[0] == SLASH {
      BodyHead(s[1..], k + 1);
    }
  }

  lemma BodyStarts(s: Units)
    requires s == [] || !Blank(s[0])
    ensures SkipBlanks(Body(s, 0) + [QUOTE]) == Body(s, 0) + [QUOTE]
  {
    BodyHead(s, 0);
  }

  /** A quoted argument met inside quotes opens where it should close. */
  lemma InsideOut(s: Units)
    requires HasBlank(s)
    ensures ParseArg(Quote(s), true) == ParseArg(Body(s, 0) + [QUOTE], false)
  {
    var inner := Body(s, 0) + [QUOTE];
    BodyHead(s, 0);
    assert Quote(s) == [QUOTE] + inner;
    ParseIsRound(0, [QUOTE] + inner, true);
    assert Slashes(0) + ([QUOTE] + inner) == [QUOTE] + inner;
    assert ([QUOTE] + inner)[1..] == inner;
    assert Slashes(0) + ParseArg(inner, false).0 == ParseArg(inner, false).0;
  }

  lemma InsideOutEnds(s: Units, w: Units)
    requires HasBlank(s)
    ensures var r := ParseArg(Quote(s), true);
            var last := [w + [SPACE] + r.0] + ParseArgs(r.1);
            last[|last| - 1] != s
  {
    InsideOut(s);
    BodyPiece(s, 0);
    var rest := ParseArg(Quote(s), true).1;
    var j :| 0 < j <= |s| && rest == [s[j - 1]] + (Body(s[j..], 0) + [QUOTE]) && Blank(s[j - 1]);
    SkipBlank(s[j - 1], Body(s[j..], 0) + [QUOTE]);
    BodyFallsApart(s[j..]);
  }

  lemma BareEnds(s: Units, w: Units)
    requires !HasBlank(s)
    ensures var r := ParseArg(Quote(s), true); r.1 == [] && w + [SPACE] + r.0 != s
  {
    var r := ParseArg(Quote(s), true);
    assert Blank((w + [SPACE] + r.0)[|w|]);
    BlankFreeIsTaken(Quote(s), true);
  }

  /** However an argument that ran on ends, it is not the one that was written last. */
  lemma RunOnLoses(s: Units, w: Units)
    ensures var r := ParseArg(Quote(s), true);
            var last := [w + [SPACE] + r.0] + ParseArgs(r.1);
            last[|last| - 1] != s
  {
    if HasBlank(s) {
      InsideOutEnds(s, w);
    } else {
      BareEnds(s, w);
    }
  }

  /** Text in front of the later arguments never splits away. */
  lemma {:induction false} TextInFrontStays(y: Units, later: seq<Units>)
    requires ParseArgs(y) != []
    ensures ParseArgs(y + Tail(later)) != later
    decreases |later|
  {
    if later == [] {
      assert y + Tail(later) == y;
    } else {
      var before, last := later[..|later| - 1], later[|later| - 1];
      assert later == before + [last];
      TextInFrontStays(y, before);
      LastDecides(y + Tail(before), before, last);
      TailGrows(before, last);
      assert y + Tail(later) == (y + Tail(before)) + ([SPACE] + Quote(last));
    }
  }

  lemma LastDecides(p: Units, before: seq<Units>, last: Units)
    requires ParseArgs(p) != before
    ensures ParseArgs(p + ([SPACE] + Quote(last))) != before + [last]
  {
    if ArgsOpen(p) {
      var pre, w := OpenRunsOn(p, Quote(last));
      RunOnLoses(last, w);
      var (swallowed, rest) := ParseArg(Quote(last), true);
      EndsWith(pre, [w + [SPACE] + swallowed] + ParseArgs(rest), before, last);
    } else {
      ClosedSplits(p, Quote(last));
      QuoteIsOne(last);
      OneEach(ParseArgs(p), ParseArgs(Quote(last)), before, last);
    }
  }

  lemma EndsWith(a: seq<Units>, b: seq<Units>, before: seq<Units>, last: Units)
    requires b != [] && b[|b| - 1] != last
    ensures a + b != before + [last]
  {
    assert (a + b)[|a + b| - 1] == b[|b| - 1] && (before + [last])[|before + [last]| - 1] == last;
  }

  lemma OneEach(a: seq<Units>, b: seq<Units>, before: seq<Units>, last: Units)
    requires |b| == 1 && a != before
    ensures a + b != before + [last]
  {
    assert (a + b)[..|a|] == a && (before + [last])[..|before|] == before;
  }

  // ----- any name -----

  lemma {:induction false} SplitsEarly(p: Units, quoted: bool, tail: Units) returns (y: Units)
    requires Toggled(p, quoted) == None && p[|p| - 1] == QUOTE
    ensures ParseProgram(p + tail, quoted).1 == y + tail && y != [] && y[|y| - 1] == QUOTE
  {
    assert (p + tail)[1..] == p[1..] + tail;
    if p[0] == QUOTE {
      y := SplitsEarly(p[1..], !quoted, tail);
    } else if !quoted && Blank(p[0]) {
      y := p[1..];
    } else {
      y := SplitsEarly(p[1..], quoted, tail);
    }
  }

  lemma {:induction false} SomethingToSplit(y: Units)
    requires y != [] && !Blank(y[|y| - 1])
    ensures ParseArgs(y) != []
  {
    if Blank(y[0]) {
      SomethingToSplit(y[1..]);
      assert y == [y[0]] + y[1..];
      SkipBlank(y[0], y[1..]);
    }
  }

  lemma QuotedToggles(s: Units)
    requires NeedsQuotes(s)
    ensures Toggled(Quote(s), false) == match Toggled(s, true) case None => None case Some(q) => Some(!q)
  {
    var inner := Body(s, 0) + [QUOTE];
    assert Quote(s) == [QUOTE] + inner && Quote(s)[1..] == inner;
    ToggledBody(s, 0, true);
    ToggledSplit(Body(s, 0), [QUOTE], true);
    assert [QUOTE][1..] == [];
  }

  lemma {:induction false} BareToggles(s: Units, quoted: bool)
    requires !HasBlank(s)
    ensures Toggled(s, quoted).Some?
  {
    if s != [] {
      assert !Blank(s[0]);
      BlankFreePart(s, 1);
      BareToggles(s[1..], if s[0] == QUOTE then !quoted else quoted);
    }
  }

  lemma EarlyNameLoses(name: Units, later: seq<Units>)
    requires NeedsQuotes(name) && Toggled(name, true) == None
    ensures ParseLine(CommandLine([name] + later))[1..] != later
  {
    assert ([name] + later)[1..] == later;
    QuotedToggles(name);
    var y := SplitsEarly(Quote(name), false, Tail(later));
    AfterName(Quote(name) + Tail(later));
    SomethingToSplit(y);
    TextInFrontStays(y, later);
  }

  /** The name's quoting closes; alone on the line it only must not end early. */
  predicate NameAllows(args: seq<Units>)
    requires args != []
  {
    var after := Toggled(args[0], NeedsQuotes(args[0]));
    if |args| == 1 then after.Some? else after == Some(NeedsQuotes(args[0]))
  }

  lemma OnlyName(name: Units)
    requires Toggled(name, NeedsQuotes(name)).Some?
    ensures ParseLine(CommandLine([name]))[1..] == []
  {
    assert [name][1..] == [] && Quote(name) + [] == Quote(name);
    if NeedsQuotes(name) {
      QuotedToggles(name);
    }
    AfterName(Quote(name));
    NameGoesOn(Quote(name), false, []);
  }

  lemma Toggles(name: Units)
    ensures var after := Toggled(name, NeedsQuotes(name));
            Toggled(Quote(name), false) == match after case None => None case Some(q) => Some(q != NeedsQuotes(name))
  {
    if NeedsQuotes(name) {
      QuotedToggles(name);
    }
  }

  lemma WrongNameLoses(name: Units, later: seq<Units>)
    requires var after := Toggled(name, NeedsQuotes(name));
             after.None? || (later != [] && after.value != NeedsQuotes(name))
    ensures ParseLine(CommandLine([name] + later))[1..] != later
  {
    Toggles(name);
    if Toggled(name, NeedsQuotes(name)).None? {
      if !NeedsQuotes(name) {
        BareToggles(name, false);
      }
      EarlyNameLoses(name, later);
    } else {
      OpenNameLoses(name, later);
    }
  }

  /** For every list, splitting the built line gives back the arguments after
      the first exactly when the name's quoting closes and every later argument
      with a quote also has a blank. */
  lemma LaterArgumentsRecovered(args: seq<Units>)
    requires args != []
    ensures ParseLine(CommandLine(args))[1..] == args[1..]
       <==> NameAllows(args) && forall i :: 1 <= i < |args| ==> Recoverable(args[i])
  {
    assert args == [args[0]] + args[1..];
    if !NameAllows(args) {
      WrongNameLoses(args[0], args[1..]);
    } else if |args| == 1 {
      OnlyName(args[0]);
    } else {
      LaterBehindClosedName(args);
    }
  }
}
