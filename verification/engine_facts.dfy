/**
 * Properties of the parsing engine: what the sequence operations guarantee to
 * the tokens, and what each composite token's `parse` yields.
 */
module EngineFacts {
  import opened Wrappers
  import opened Kinds
  import opened Nodes
  import opened Sequences
  import opened Grammar
  import opened Errors
  import opened Engine

  /** The outcome is not a recovered dummy on its way up. */
  predicate NoRecovery(o: Outcome) {
    !(o.Fail? && o.fault.FailedTokenInterruption?)
  }

  predicate NoRecoveryStatus(st: Status) {
    !(st.Raised? && st.fault.FailedTokenInterruption?)
  }

  predicate AllPlain(ts: seq<Rule>) {
    forall i :: 0 <= i < |ts| ==> Plain(ts[i])
  }

  // ----- a grammar without `Savior` never recovers -----

  /** Only a `Savior` throws `FailedTokenInterruption`: parsing a rule tree without one
      never produces it, at any depth of nesting. */
  lemma {:induction false} RunPlain(fuel: nat, r: Rule, s: Sequence)
    requires Plain(r)
    ensures NoRecovery(Run(fuel, r, s))
    decreases fuel, 0, 0
  {
    if fuel > 0 {
      match r
      case CharP =>
      case EpsilonP =>
      case Opt(t) => OptionalPlain(fuel - 1, t, s);
      case AnyP(ts) => AnyLoopPlain(fuel - 1, ts, ts, s, []);
      case Make(c, b) => FactoryPlain(fuel - 1, c, b, s);
    }
  }

  lemma {:induction false} TryParsePlain(fuel: nat, s: Sequence, r: Rule)
    requires Plain(r)
    ensures NoRecovery(TryParse(fuel, s, r))
    decreases fuel, 1, 0
  {
    if CopyRemainder(s).Success? {
      RunPlain(fuel, r, CopyRemainder(s).value);
    }
  }

  lemma {:induction false} SeqParsePlain(fuel: nat, s: Sequence, r: Rule)
    requires Plain(r)
    ensures NoRecovery(SeqParse(fuel, s, r).1)
    decreases fuel, 2, 0
  {
    TryParsePlain(fuel, s, r);
  }

  lemma {:induction false} ParseAndStepPlain(fuel: nat, s: Sequence, r: Rule)
    requires Plain(r)
    ensures NoRecovery(ParseAndStep(fuel, s, r).1)
    decreases fuel, 3, 0
  {
    SeqParsePlain(fuel, s, r);
  }

  lemma {:induction false} ChainLoopPlain(fuel: nat, ts: seq<Rule>, s: Sequence)
    requires AllPlain(ts)
    ensures NoRecoveryStatus(ChainLoop(fuel, ts, s).1)
    decreases fuel, 4, |ts|
  {
    if ts != [] {
      ParseAndStepPlain(fuel, s, ts[0]);
      var (s1, o) := ParseAndStep(fuel, s, ts[0]);
      assert AllPlain(ts[1..]) by {
        forall i | 0 <= i < |ts[1..]| ensures Plain(ts[1..][i]) {
          assert ts[1..][i] == ts[i + 1];
        }
      }
      ChainLoopPlain(fuel, ts[1..], s1);
    }
  }

  lemma {:induction false} ArrayLoopPlain(fuel: nat, t: Rule, max: int, s: Sequence)
    requires Plain(t)
    ensures NoRecoveryStatus(ArrayLoop(fuel, t, max, s).1)
    decreases fuel, 4, 0
  {
    if !(IsEof(s) || (max != 0 && s.pointer >= max)) && fuel > 0 {
      ParseAndStepPlain(fuel - 1, s, t);
      var (s1, o) := ParseAndStep(fuel - 1, s, t);
      ArrayLoopPlain(fuel - 1, t, max, s1);
    }
  }

  lemma {:induction false} UnionLoopPlain(fuel: nat, all: seq<Rule>, rest: seq<Rule>, s: Sequence, errs: seq<Error>)
    requires AllPlain(rest)
    ensures NoRecoveryStatus(UnionLoop(fuel, all, rest, s, errs).1)
    decreases fuel, 4, |rest|
  {
    if rest != [] {
      SeqParsePlain(fuel, s, rest[0]);
      var (s1, o) := SeqParse(fuel, s, rest[0]);
      assert AllPlain(rest[1..]) by {
        forall i | 0 <= i < |rest[1..]| ensures Plain(rest[1..][i]) {
          assert rest[1..][i] == rest[i + 1];
        }
      }
      if o.Fail? && o.fault.Parse? {
        UnionLoopPlain(fuel, all, rest[1..], s1, errs + [o.fault.e]);
      }
    }
  }

  lemma {:induction false} OptionsLoopPlain(fuel: nat, all: seq<Rule>, rest: seq<Rule>, s: Sequence, errs: seq<Error>)
    requires AllPlain(rest)
    ensures NoRecoveryStatus(OptionsLoop(fuel, all, rest, s, errs).1)
    decreases fuel, 4, |rest|
  {
    if rest != [] {
      ParseAndStepPlain(fuel, s, Opt(rest[0]));
      var (s1, o) := ParseAndStep(fuel, s, Opt(rest[0]));
      assert AllPlain(rest[1..]) by {
        forall i | 0 <= i < |rest[1..]| ensures Plain(rest[1..][i]) {
          assert rest[1..][i] == rest[i + 1];
        }
      }
      OptionsLoopPlain(fuel, all, rest[1..], s1, errs);
      if o.Fail? && o.fault.Parse? && o.fault.e.OptionalNotFound? {
        OptionsLoopPlain(fuel, all, rest[1..], s1, errs + [o.fault.e.cause]);
      }
    }
  }

  lemma {:induction false} AnyLoopPlain(fuel: nat, all: seq<Rule>, rest: seq<Rule>, s: Sequence, errs: seq<Error>)
    requires AllPlain(rest)
    ensures NoRecovery(AnyLoop(fuel, all, rest, s, errs))
    decreases fuel, 4, |rest|
  {
    if rest != [] {
      var t := rest[0];
      TryParsePlain(fuel, s, t);
      RunPlain(fuel, t, s);
      assert AllPlain(rest[1..]) by {
        forall i | 0 <= i < |rest[1..]| ensures Plain(rest[1..][i]) {
          assert rest[1..][i] == rest[i + 1];
        }
      }
      AnyLoopPlain(fuel, all, rest[1..], s, errs);
      var o := match TryParse(fuel, s, t) case Ok(_) => Run(fuel, t, s) case f => f;
      if o.Fail? && o.fault.Parse? {
        AnyLoopPlain(fuel, all, rest[1..], s, errs + [MkParserError(o.fault.e, t)]);
      }
    }
  }

  lemma {:induction false} ArrayBodyPlain(fuel: nat, t: Rule, min: int, max: int, s: Sequence)
    requires Plain(t)
    ensures NoRecoveryStatus(ArrayBody(fuel, t, min, max, s).1)
    decreases fuel, 5, 0
  {
    ArrayLoopPlain(fuel, t, max, s);
  }

  lemma {:induction false} OptionalPlain(fuel: nat, t: Rule, s: Sequence)
    requires Plain(t)
    ensures NoRecovery(OptionalParse(fuel, t, s))
    decreases fuel, 5, 0
  {
    SeqParsePlain(fuel, s, t);
  }

  lemma {:induction false} RunBodyPlain(fuel: nat, b: Body, s: Sequence)
    requires PlainBody(b)
    ensures NoRecoveryStatus(RunBody(fuel, b, s).1)
    decreases fuel, 6, 0
  {
    match b
    case ChainB(ts) => ChainLoopPlain(fuel, ts, s);
    case ArrayB(t, min, max) => ArrayBodyPlain(fuel, t, min, max, s);
    case UnionB(ts) => UnionLoopPlain(fuel, ts, ts, s, []);
    case OptionsB(ts) => OptionsLoopPlain(fuel, ts, ts, s, []);
    case LiteralB(lit) => ArrayBodyPlain(fuel, CharP, |lit|, |lit|, s);
    case DefinedCharB(_) =>
    case CastB(t) => ParseAndStepPlain(fuel, s, t);
    case RaiseB(_) =>
  }

  lemma {:induction false} FactoryPlain(fuel: nat, c: Cls, b: Body, s: Sequence)
    requires PlainBody(b)
    ensures NoRecovery(FactoryParse(fuel, c, b, s))
    decreases fuel, 7, 0
  {
    RunBodyPlain(fuel, b, s);
  }

  // ----- the sequence's parse operations -----

  /** `Char` accepts exactly a character symbol at the cursor, and stepping over it
      leaves the list untouched: the symbol is fused onto itself. */
  lemma CharStep(fuel: nat, s: Sequence)
    requires fuel > 0
    ensures var (s', o) := ParseAndStep(fuel, s, CharP);
      (o.Ok? <==> 0 <= s.pointer < Size(s) && IsGlyph(s.content[s.pointer]))
      && (o.Ok? ==> o.node == s.content[s.pointer] && s' == Next(s))
      && (o.Fail? ==> s' == s)
  {
    var (s', o) := ParseAndStep(fuel, s, CharP);
    if 0 <= s.pointer < Size(s) {
      var c := CopyRemainder(s).value;
      assert Current(c) == Current(s);
      assert Run(fuel, CharP, c) == CharParse(c);
      if IsGlyph(s.content[s.pointer]) {
        var n := s.content[s.pointer];
        assert TryParse(fuel, s, CharP) == Ok(n);
        assert Length(n) == 1;
        assert s.content[..s.pointer] + [n] + s.content[s.pointer + 1..] == s.content;
      } else {
        assert CharParse(c).Fail? && CharParse(c).fault.Parse?;
        assert TryParse(fuel, s, CharP).Fail? && TryParse(fuel, s, CharP).fault.Parse?;
      }
    } else {
      assert CopyRemainder(s).Failure?;
      assert TryParse(fuel, s, CharP).Fail? && TryParse(fuel, s, CharP).fault.Runtime?;
    }
  }

  /** `tryParse` leaves every `GenericParseError` but a missed optional wrapped in a
      depth-1 `ParserError` naming the rule; at end of input its cause is an
      `EOFParseError` one level down. */
  lemma TryParseWraps(fuel: nat, s: Sequence, r: Rule)
    ensures var o := TryParse(fuel, s, r);
      o.Fail? && o.fault.Parse? ==>
        (o.fault.e.ParserError? || o.fault.e.OptionalNotFound?)
        && (o.fault.e.ParserError? ==> o.fault.e.depth == 1 && o.fault.e.parser == r)
        && (o.fault.e.ParserError? && IsEof(s) ==> o.fault.e.cause == EOFParseError(2))
  {
    var o := TryParse(fuel, s, r);
    if CopyRemainder(s).Success? {
      var q := Run(fuel, r, CopyRemainder(s).value);
      if q.Fail? && q.fault.Parse? && !q.fault.e.OptionalNotFound? {
        var cause := if IsEof(s) then EOFParseError(0) else q.fault.e;
        assert o == Fail(Parse(MkParserError(cause, r)));
        assert SetDepth(EOFParseError(0), 2) == EOFParseError(2);
        assert MkParserError(EOFParseError(0), r) == ParserError(1, SetDepth(EOFParseError(0), 2), r);
      }
    }
  }

  /** `tryParse` sees only the remainder: two sequences with the same tokens from their
      cursors on give the same outcome, whatever precedes the cursor. */
  lemma TryParseIsLocal(fuel: nat, s: Sequence, t: Sequence, r: Rule)
    requires 0 <= s.pointer < Size(s) && 0 <= t.pointer < Size(t)
    requires s.content[s.pointer..] == t.content[t.pointer..]
    ensures TryParse(fuel, s, r) == TryParse(fuel, t, r)
  {
    assert s.content[s.pointer] == s.content[s.pointer..][0];
    assert t.content[t.pointer] == t.content[t.pointer..][0];
    assert IsEof(s) == IsEof(t);
  }

  /** `parse` never rewrites what lies before the cursor, and never moves the cursor back. */
  lemma SeqParseKeepsPrefix(fuel: nat, s: Sequence, r: Rule)
    requires 0 <= s.pointer <= Size(s)
    ensures var (s', _) := SeqParse(fuel, s, r);
      s.pointer <= s'.pointer && s.pointer <= Size(s') && s'.content[..s.pointer] == s.content[..s.pointer]
  {
    var p := s.pointer;
    match TryParse(fuel, s, r)
    case Ok(n) =>
    case Fail(FailedTokenInterruption(tok)) =>
      if ErrorOf(tok).UnexpectedTokenError? && Fusion(s, tok).Success? {
        RetryKeepsPrefix(fuel, s, r, tok);
      }
    case Fail(Interruption(i, tok)) =>
    case Fail(f) =>
  }

  /** The retry after a recovered `UnexpectedToken` works past the fused dummy only. */
  lemma RetryKeepsPrefix(fuel: nat, s: Sequence, r: Rule, tok: Node)
    requires 0 <= s.pointer <= Size(s)
    ensures var s2 := Next(Fusion(s, tok).value);
      var (s3, _) := match TryParse(fuel, s2, r) case Ok(n) => Fuse(s2, n) case Fail(f) => (s2, Fail(f));
      s.pointer <= s3.pointer && s.pointer <= Size(s3) && s3.content[..s.pointer] == s.content[..s.pointer]
  {
    var p := s.pointer;
    var s2 := Next(Fusion(s, tok).value);
    assert s2.content[..p] == s.content[..p];
    if TryParse(fuel, s2, r).Ok? {
      var s3 := Fusion(s2, TryParse(fuel, s2, r).node).value;
      assert s3.content[..p] == s2.content[..p + 1][..p];
    }
  }

  /** Without recovery, a successful `parse` is exactly the fusion of the parsed token at
      the cursor, and a failure other than an interrupter leaves the sequence as it was. */
  lemma PlainSeqParse(fuel: nat, s: Sequence, r: Rule)
    requires Plain(r)
    ensures var (s', o) := SeqParse(fuel, s, r);
      (o.Ok? ==> TryParse(fuel, s, r) == o && Fusion(s, o.node) == Success(s')
                 && s'.pointer == s.pointer && s'.content[s.pointer] == o.node)
      && (o.Fail? && !o.fault.Interrupt? ==> s' == s)
      && (TryParse(fuel, s, r).Fail? && TryParse(fuel, s, r).fault.Parse? ==> o == TryParse(fuel, s, r))
  {
    TryParsePlain(fuel, s, r);
  }

  /** `parseAndStep` without recovery: the token is fused at the cursor and the cursor
      moves one past it; a failed parse moves nothing. */
  lemma PlainParseAndStep(fuel: nat, s: Sequence, r: Rule)
    requires Plain(r)
    ensures var (s', o) := ParseAndStep(fuel, s, r);
      (o.Ok? ==> s'.pointer == s.pointer + 1 && 0 <= s.pointer < Size(s) && s.pointer < Size(s')
                 && s'.content[s.pointer] == o.node && s'.content[..s.pointer] == s.content[..s.pointer])
      && (o.Fail? && !o.fault.Interrupt? ==> s' == s)
  {
    PlainSeqParse(fuel, s, r);
    var (s1, o) := SeqParse(fuel, s, r);
    if o.Ok? {
      assert 0 <= s.pointer <= Size(s);
    }
  }

  // ----- Array and Literal -----

  /** The first `|lit|` tokens are the characters of `lit`, in order. */
  predicate Spells(cs: seq<Node>, lit: string) {
    |cs| == |lit| && forall i :: 0 <= i < |lit| ==> IsGlyph(cs[i]) && cs[i].kind.c == lit[i]
  }

  /** The raw text of character symbols is their characters, one each. */
  lemma {:induction false} GlyphsRaw(cs: seq<Node>)
    requires forall i :: 0 <= i < |cs| ==> IsGlyph(cs[i])
    ensures |RawOf(cs)| == |cs|
    ensures forall i :: 0 <= i < |cs| ==> cs[i].Sym? && cs[i].kind.AtomS? && RawOf(cs)[i] == cs[i].kind.c
  {
    if cs != [] {
      GlyphsRaw(cs[1..]);
      assert RawOf(cs) == [cs[0].kind.c] + RawOf(cs[1..]);
    }
  }

  /** A character symbol at the cursor is not the end of input. */
  lemma GlyphIsNotEof(s: Sequence)
    requires 0 <= s.pointer < Size(s) && IsGlyph(s.content[s.pointer])
    ensures !IsEof(s)
  {
    BreakIsEof();
  }

  /** From `s` to `s'` the cursor only moved forward over character symbols, within the
      list and within `max`, and the list itself is unchanged. */
  predicate GlyphSpan(s: Sequence, s': Sequence, max: int) {
    s'.content == s.content && 0 <= s.pointer <= s'.pointer <= Size(s)
    && (max != 0 ==> s'.pointer <= max)
    && forall i :: s.pointer <= i < s'.pointer ==> IsGlyph(s.content[i])
  }

  /** One round of an `Array`: the loop ends where its item left the cursor, or goes on
      from there. */
  lemma ArrayLoopStep(fuel: nat, t: Rule, max: int, s: Sequence)
    requires !(IsEof(s) || (max != 0 && s.pointer >= max)) && fuel > 0
    ensures var s1 := ParseAndStep(fuel - 1, s, t).0;
      ArrayLoop(fuel, t, max, s).0 in {s1, ArrayLoop(fuel - 1, t, max, s1).0}
  {
  }

  /** One round of an `Array` before its end: an item that parses or is missed as an
      optional is followed by the next round, another parse failure ends the loop where
      it left the cursor, and any other failure is raised. */
  lemma ArrayLoopRound(fuel: nat, t: Rule, max: int, s: Sequence)
    requires !(IsEof(s) || (max != 0 && s.pointer >= max)) && fuel > 0
    ensures var (s1, o) := ParseAndStep(fuel - 1, s, t);
      ArrayLoop(fuel, t, max, s) ==
        if o.Ok? || (o.fault.Parse? && o.fault.e.OptionalNotFound?) then ArrayLoop(fuel - 1, t, max, s1)
        else if o.fault.Parse? then (s1, Done)
        else (s1, Raised(o.fault))
  {
  }

  /** Two spans over character symbols join into one. */
  lemma GlyphSpanJoin(s: Sequence, s1: Sequence, s2: Sequence, max: int)
    requires GlyphSpan(s, s1, max) && GlyphSpan(s1, s2, max)
    ensures GlyphSpan(s, s2, max)
  {
    forall i | s.pointer <= i < s2.pointer
      ensures IsGlyph(s.content[i])
    {
      if i >= s1.pointer {
        assert IsGlyph(s1.content[i]);
      }
    }
  }

  /** A round of an `Array` of `Char` before `max`, on a character symbol, steps over it
      and goes on. */
  lemma CharRound(fuel: nat, max: int, s: Sequence)
    requires fuel > 1 && 0 <= s.pointer < Size(s) && IsGlyph(s.content[s.pointer])
    requires max != 0 && s.pointer < max
    ensures ArrayLoop(fuel, CharP, max, s) == ArrayLoop(fuel - 1, CharP, max, Sequence(s.content, s.pointer + 1))
  {
    GlyphIsNotEof(s);
    CharAdvances(fuel - 1, s);
    ArrayLoopGoesOn(fuel, CharP, max, s);
  }

  /** `Char` on a character symbol parses it and steps over it. */
  lemma CharAdvances(fuel: nat, s: Sequence)
    requires fuel > 0 && 0 <= s.pointer < Size(s) && IsGlyph(s.content[s.pointer])
    ensures ParseAndStep(fuel, s, CharP).1.Ok?
    ensures ParseAndStep(fuel, s, CharP).0 == Sequence(s.content, s.pointer + 1)
  {
    CharStep(fuel, s);
  }

  /** A round whose item parses is followed by the next round from where the item left
      the cursor. */
  lemma ArrayLoopGoesOn(fuel: nat, t: Rule, max: int, s: Sequence)
    requires !(IsEof(s) || (max != 0 && s.pointer >= max)) && fuel > 0
    requires ParseAndStep(fuel - 1, s, t).1.Ok?
    ensures ArrayLoop(fuel, t, max, s) == ArrayLoop(fuel - 1, t, max, ParseAndStep(fuel - 1, s, t).0)
  {
  }

  /** One `Char` inside an `Array` steps over at most one character symbol, before `max`. */
  lemma CharSpan(fuel: nat, max: int, s: Sequence)
    requires 0 <= s.pointer <= Size(s) && !(IsEof(s) || (max != 0 && s.pointer >= max))
    ensures GlyphSpan(s, ParseAndStep(fuel, s, CharP).0, max)
  {
    if fuel == 0 {
      assert ParseAndStep(fuel, s, CharP).0 == s;
    } else {
      CharStep(fuel, s);
    }
  }

  /** An `Array` of `Char` steps over character symbols only and never changes the list;
      it stops at `max` repetitions at the latest. */
  lemma {:induction false} ArrayOfCharsSound(fuel: nat, max: int, s: Sequence)
    requires 0 <= s.pointer <= Size(s) && (max != 0 ==> s.pointer <= max)
    ensures GlyphSpan(s, ArrayLoop(fuel, CharP, max, s).0, max)
    decreases fuel
  {
    if !(IsEof(s) || (max != 0 && s.pointer >= max)) && fuel > 0 {
      var s1 := ParseAndStep(fuel - 1, s, CharP).0;
      CharSpan(fuel - 1, max, s);
      ArrayOfCharsSound(fuel - 1, max, s1);
      GlyphSpanJoin(s, s1, ArrayLoop(fuel - 1, CharP, max, s1).0, max);
      ArrayLoopStep(fuel, CharP, max, s);
    }
  }

  /** The repetition of an `Array` ends on its item's first parse error: the loop itself
      only ever raises what is not a parse error. */
  lemma {:induction false} ArrayLoopRaises(fuel: nat, t: Rule, max: int, s: Sequence)
    ensures var (_, st) := ArrayLoop(fuel, t, max, s);
      st.Raised? ==> !st.fault.Parse?
    decreases fuel
  {
    if !(IsEof(s) || (max != 0 && s.pointer >= max)) && fuel > 0 {
      var (s1, o) := ParseAndStep(fuel - 1, s, t);
      ArrayLoopRaises(fuel - 1, t, max, s1);
    }
  }

  /** With enough fuel, an `Array` of `Char` bounded by `max` consumes exactly the `max`
      character symbols ahead of the cursor. */
  lemma {:induction false} ArrayOfCharsComplete(fuel: nat, max: int, s: Sequence)
    requires 0 <= s.pointer <= max <= Size(s) && max != 0
    requires forall i :: s.pointer <= i < max ==> IsGlyph(s.content[i])
    requires fuel > max - s.pointer
    ensures ArrayLoop(fuel, CharP, max, s) == (Sequence(s.content, max), Done)
    decreases max - s.pointer
  {
    if s.pointer < max {
      CharRound(fuel, max, s);
      ArrayOfCharsComplete(fuel - 1, max, Sequence(s.content, s.pointer + 1));
    } else {
      assert ArrayLoop(fuel, CharP, max, s) == (s, Done);
    }
  }

  /** A `Literal` succeeds only on the exact characters of its literal: the token holds
      the `|lit|` character symbols ahead of the cursor, and they spell `lit`. */
  lemma LiteralSound(fuel: nat, c: Cls, lit: string, s: Sequence)
    requires s.pointer == 0
    ensures var o := FactoryParse(fuel, c, LiteralB(lit), s);
      o.Ok? ==> lit != [] && |lit| <= Size(s) && o.node == Comp(c, s.content[..|lit|])
                && Spells(s.content[..|lit|], lit)
  {
    var o := FactoryParse(fuel, c, LiteralB(lit), s);
    if o.Ok? {
      ArrayOfCharsSound(fuel, |lit|, s);
      ArrayLoopRaises(fuel, CharP, |lit|, s);
      var (s1, st) := ArrayLoop(fuel, CharP, |lit|, s);
      assert RunBody(fuel, LiteralB(lit), s).1.Done?;
      assert st.Done?;
      var s2 := ClearFrom(s1, 0);
      assert ArrayBody(fuel, CharP, |lit|, |lit|, s).0 == s2;
      assert RunBody(fuel, LiteralB(lit), s) == LiteralCheck(lit, s2);
      assert s2.content == s.content[..s1.pointer];
      JoinOfAtoms(s2.content, NoGrammarValue);
      GlyphsRaw(s2.content);
      assert RawOf(s2.content) == lit;
    }
  }

  /** With enough fuel, a `Literal` succeeds whenever the characters ahead spell it. */
  lemma LiteralComplete(fuel: nat, c: Cls, lit: string, s: Sequence)
    requires s.pointer == 0 && lit != [] && |lit| <= Size(s) && Spells(s.content[..|lit|], lit)
    requires fuel > |lit|
    ensures FactoryParse(fuel, c, LiteralB(lit), s) == Ok(Comp(c, s.content[..|lit|]))
  {
    var cs := s.content[..|lit|];
    assert forall i :: 0 <= i < |lit| ==> IsGlyph(s.content[i]) by {
      forall i | 0 <= i < |lit| ensures IsGlyph(s.content[i]) {
        assert cs[i] == s.content[i];
      }
    }
    ArrayOfCharsComplete(fuel, |lit|, s);
    var s2 := ClearFrom(Sequence(s.content, |lit|), 0);
    assert s2 == Sequence(cs, |lit|);
    assert ArrayBody(fuel, CharP, |lit|, |lit|, s) == (s2, Done);
    JoinOfAtoms(cs, NoGrammarValue);
    GlyphsRaw(cs);
    assert RawOf(cs) == lit;
    assert RunBody(fuel, LiteralB(lit), s) == (s2, Done);
  }

  /** The symbols of a tokenized string, before its `EOF`, spell the string. */
  lemma TokenizedSpells(lit: string)
    ensures Spells(Tokenize(lit)[..|lit|], lit)
  {
    var t := Tokenize(lit);
    assert forall i :: 0 <= i < |lit| ==> t[..|lit|][i] == Sym(AtomS(lit[i]), i);
  }

  /** `getJoin` of character symbols followed by an `EOF`: their characters, then the end
      symbol's null value shown as "null". */
  lemma {:induction false} JoinThenEof(cs: seq<Node>, k: nat, user: Node -> Value)
    requires forall i :: 0 <= i < |cs| ==> IsGlyph(cs[i])
    ensures Join(cs + [Sym(EofS, k)], user) == Some(RawOf(cs) + "null")
  {
    var e := Sym(EofS, k);
    BreakIsEof();
    if cs == [] {
      assert cs + [e] == [e] && [e][1..] == [];
      assert !Matches(e, TrimmedC) && GetValue(e, user) == Some(Null);
      assert Join([e][1..], user) == Some("");
      assert Show(Null) + "" == "null";
      assert Join([e], user) == Some("null");
      assert RawOf(cs) == "" && RawOf(cs) + "null" == "null";
    } else {
      assert (cs + [e])[0] == cs[0] && (cs + [e])[1..] == cs[1..] + [e];
      assert !Matches(cs[0], TrimmedC) && GetValue(cs[0], user) == Some(Char(cs[0].kind.c));
      JoinThenEof(cs[1..], k, user);
      assert RawOf(cs) == [cs[0].kind.c] + RawOf(cs[1..]);
      assert [cs[0].kind.c] + (RawOf(cs[1..]) + "null") == RawOf(cs) + "null";
    }
  }

  /** The whole tokenized string, `EOF` included, joins to the string followed by "null". */
  lemma JoinOfTokenized(lit: string)
    ensures Join(Tokenize(lit), NoGrammarValue) == Some(lit + "null")
  {
    var t := Tokenize(lit);
    TokenizedSpells(lit);
    assert t == t[..|lit|] + [Sym(EofS, |lit|)];
    JoinThenEof(t[..|lit|], |lit|, NoGrammarValue);
    AtomsSpell(t[..|lit|], lit);
  }

  /** `Array.parse` as written keeps the `EOF` when the repetition ends at the end of
      input: a `StringLiteral` over the whole input `lit` joins its children to `lit`
      followed by "null" and fails. "foo" fails with "foonull". */
  lemma ArrayAtEndOfInput(fuel: nat, lit: string)
    requires lit != [] && fuel > |lit|
    ensures var (s', st) := ArrayBodyAsWritten(fuel, CharP, |lit|, |lit|, FromString(lit));
      st == Done && s'.content == Tokenize(lit) && s'.content[|lit|] == Sym(EofS, |lit|)
      && LiteralCheck(lit, s').1 == Raised(Parse(LiteralDoesNotMatch(0, lit, lit + "null")))
  {
    var s := FromString(lit);
    TokenizedSpells(lit);
    assert forall i :: 0 <= i < |lit| ==> IsGlyph(s.content[i]) by {
      forall i | 0 <= i < |lit| ensures IsGlyph(s.content[i]) {
        assert Tokenize(lit)[..|lit|][i] == s.content[i];
      }
    }
    ArrayOfCharsComplete(fuel, |lit|, s);
    var s1 := Sequence(s.content, |lit|);
    BreakIsEof();
    assert IsEof(s1);
    assert ArrayBodyAsWritten(fuel, CharP, |lit|, |lit|, s) == (s1, Done);
    JoinOfTokenized(lit);
    assert |lit + "null"| > |lit|;
  }

  /** An `Array` of `Char` bounded beyond an `EOF` at `k` steps over the characters up to
      it and stops there. */
  lemma {:induction false} ArrayOfCharsToEof(fuel: nat, max: int, s: Sequence, k: nat)
    requires 0 <= s.pointer <= k < Size(s) && max != 0 && k < max
    requires forall i :: s.pointer <= i < k ==> IsGlyph(s.content[i])
    requires s.content[k].Sym? && s.content[k].kind == EofS
    requires fuel > k - s.pointer
    ensures ArrayLoop(fuel, CharP, max, s) == (Sequence(s.content, k), Done)
    decreases k - s.pointer
  {
    if s.pointer < k {
      CharRound(fuel, max, s);
      ArrayOfCharsToEof(fuel - 1, max, Sequence(s.content, s.pointer + 1), k);
    } else {
      BreakIsEof();
      assert IsEof(s);
    }
  }

  /** `Literal.parse` as written accepts input shorter than its literal when the literal
      ends in "null": on the input `lit`, the array of `|lit| + 4` characters reaches the
      `EOF`, keeps it, is undersized (swallowed), and the join `lit + "null"` matches.
      `Literal("null")` thus accepts the empty input with the `EOF` as its only child. */
  lemma LiteralAcceptsShorterInput(fuel: nat, lit: string)
    requires fuel > |lit|
    ensures LiteralBodyAsWritten(fuel, lit + "null", FromString(lit)) == (Sequence(Tokenize(lit), |lit|), Done)
  {
    var s := FromString(lit);
    var n := |lit + "null"|;
    TokenizedSpells(lit);
    assert forall i :: 0 <= i < |lit| ==> IsGlyph(s.content[i]) by {
      forall i | 0 <= i < |lit| ensures IsGlyph(s.content[i]) {
        assert Tokenize(lit)[..|lit|][i] == s.content[i];
      }
    }
    ArrayOfCharsToEof(fuel, n, s, |lit|);
    var s1 := Sequence(s.content, |lit|);
    BreakIsEof();
    assert IsEof(s1);
    assert ArrayBodyAsWritten(fuel, CharP, n, n, s) == (s1, Raised(Parse(UndersizedArrayError(0))));
    JoinOfTokenized(lit);
  }

  /** With the corrected ending, a `Literal` ending in "null" rejects the input made of
      the rest of its literal: it needs all of its characters. */
  lemma LiteralRejectsShorterInput(fuel: nat, c: Cls, lit: string)
    ensures FactoryParse(fuel, c, LiteralB(lit + "null"), FromString(lit)).Fail?
  {
    LiteralSound(fuel, c, lit + "null", FromString(lit));
  }

  /** With the corrected ending, a `StringLiteral` over the whole input `lit` parses the
      characters of `lit`. */
  lemma LiteralAtEndOfInput(fuel: nat, lit: string)
    requires lit != [] && fuel > |lit|
    ensures FactoryParse(fuel, StringLiteralC, LiteralB(lit), FromString(lit))
            == Ok(Comp(StringLiteralC, Tokenize(lit)[..|lit|]))
  {
    TokenizedSpells(lit);
    LiteralComplete(fuel, StringLiteralC, lit, FromString(lit));
  }

  // ----- Union -----

  /** The alternative's `tryParse` failed with a (wrapped) parse error. */
  predicate Rejects(o: Outcome) {
    o.Fail? && o.fault.Parse? && o.fault.e.ParserError?
  }

  /** The position of the first alternative whose `tryParse` does not fail with a parse
      error, `|rest|` when all do: the alternative a `Union` settles on. */
  function FirstNonRejecting(fuel: nat, s: Sequence, rest: seq<Rule>): (k: nat)
    ensures k <= |rest|
    ensures forall j :: 0 <= j < k ==> Rejects(TryParse(fuel, s, rest[j]))
    ensures k < |rest| ==> !Rejects(TryParse(fuel, s, rest[k]))
  {
    if rest == [] then 0
    else if Rejects(TryParse(fuel, s, rest[0])) then 1 + FirstNonRejecting(fuel, s, rest[1..])
    else 0
  }

  /** The errors of alternatives that all failed, in order. */
  function Rejections(fuel: nat, s: Sequence, rest: seq<Rule>): (es: seq<Error>)
    requires forall i :: 0 <= i < |rest| ==> Rejects(TryParse(fuel, s, rest[i]))
    ensures |es| == |rest|
    ensures forall i :: 0 <= i < |rest| ==> TryParse(fuel, s, rest[i]) == Fail(Parse(es[i])) && es[i].parser == rest[i]
  {
    TryParseWrapsAll(fuel, s, rest);
    if rest == [] then []
    else
      assert forall i :: 0 <= i < |rest[1..]| ==> rest[1..][i] == rest[i + 1];
      [TryParse(fuel, s, rest[0]).fault.e] + Rejections(fuel, s, rest[1..])
  }

  lemma TryParseWrapsAll(fuel: nat, s: Sequence, rest: seq<Rule>)
    ensures forall i :: 0 <= i < |rest| && Rejects(TryParse(fuel, s, rest[i])) ==> TryParse(fuel, s, rest[i]).fault.e.parser == rest[i]
  {
    forall i | 0 <= i < |rest| && Rejects(TryParse(fuel, s, rest[i])) {
      TryParseWraps(fuel, s, rest[i]);
    }
  }

  /** One alternative of `Union` without recovery: a rejection moves on with its error
      recorded and the sequence untouched; a success or a missed optional ends the loop. */
  lemma UnionStep(fuel: nat, all: seq<Rule>, rest: seq<Rule>, s: Sequence, errs: seq<Error>)
    requires rest != [] && Plain(rest[0])
    ensures var o := TryParse(fuel, s, rest[0]);
      (Rejects(o) ==> UnionLoop(fuel, all, rest, s, errs) == UnionLoop(fuel, all, rest[1..], s, errs + [o.fault.e]))
      && (o.Ok? ==> 0 <= s.pointer < Size(s) && UnionLoop(fuel, all, rest, s, errs) == (ClearRemainder(Fusion(s, o.node).value), Done))
      && (o.Fail? && o.fault.Parse? && !Rejects(o) ==>
            0 <= s.pointer < Size(s) && UnionLoop(fuel, all, rest, s, errs) == (ClearRemainder(s), Done))
      && (o.Fail? && !o.fault.Parse? ==> UnionLoop(fuel, all, rest, s, errs).1.Raised?)
  {
    PlainSeqParse(fuel, s, rest[0]);
    TryParseWraps(fuel, s, rest[0]);
    var o := TryParse(fuel, s, rest[0]);
    if o.Ok? || (o.Fail? && o.fault.Parse?) {
      assert CopyRemainder(s).Success?;
    }
  }

  /** `Union` without recovery fails only when every alternative fails, and its
      `UnionError` then lists the types of all alternatives and all their errors, in order. */
  lemma UnionAllReject(fuel: nat, all: seq<Rule>, rest: seq<Rule>, s: Sequence, errs: seq<Error>)
    requires AllPlain(rest)
    requires forall i :: 0 <= i < |rest| ==> Rejects(TryParse(fuel, s, rest[i]))
    ensures UnionLoop(fuel, all, rest, s, errs) == (s, Raised(Parse(MkMulti(UnionErr, Types(all), errs + Rejections(fuel, s, rest)))))
  {
    UnionRejectsAll(fuel, all, rest, s, errs);
  }

  /** Every alternative is free of `Savior` and fails with a parse error. */
  predicate AllRejected(fuel: nat, s: Sequence, rest: seq<Rule>) {
    AllPlain(rest) && forall i :: 0 <= i < |rest| ==> Rejects(TryParse(fuel, s, rest[i]))
  }

  lemma {:induction false} UnionRejectsAll(fuel: nat, all: seq<Rule>, rest: seq<Rule>, s: Sequence, errs: seq<Error>)
    requires AllRejected(fuel, s, rest)
    ensures UnionLoop(fuel, all, rest, s, errs) == UnionLoop(fuel, all, [], s, errs + Rejections(fuel, s, rest))
    decreases |rest|
  {
    if rest == [] {
      assert errs + Rejections(fuel, s, rest) == errs;
    } else {
      var e := UnionRejectStep(fuel, all, rest, s, errs);
      UnionRejectsAll(fuel, all, rest[1..], s, errs + [e]);
    }
  }

  /** One rejected alternative: its error is the first of the rejections, and the loop
      continues on the rest with that error recorded. */
  lemma UnionRejectStep(fuel: nat, all: seq<Rule>, rest: seq<Rule>, s: Sequence, errs: seq<Error>) returns (e: Error)
    requires rest != [] && AllRejected(fuel, s, rest)
    ensures AllRejected(fuel, s, rest[1..])
    ensures UnionLoop(fuel, all, rest, s, errs) == UnionLoop(fuel, all, rest[1..], s, errs + [e])
    ensures errs + [e] + Rejections(fuel, s, rest[1..]) == errs + Rejections(fuel, s, rest)
  {
    RejectionsTail(fuel, s, rest);
    e := Rejections(fuel, s, rest)[0];
    UnionStep(fuel, all, rest, s, errs);
  }

  lemma RejectionsTail(fuel: nat, s: Sequence, rest: seq<Rule>)
    requires rest != [] && AllRejected(fuel, s, rest)
    ensures AllRejected(fuel, s, rest[1..])
    ensures Rejections(fuel, s, rest) == [Rejections(fuel, s, rest)[0]] + Rejections(fuel, s, rest[1..])
    ensures TryParse(fuel, s, rest[0]) == Fail(Parse(Rejections(fuel, s, rest)[0]))
    ensures Plain(rest[0])
  {
    var tail := rest[1..];
    forall i | 0 <= i < |tail| ensures Plain(tail[i]) && Rejects(TryParse(fuel, s, tail[i])) {
      assert tail[i] == rest[i + 1];
    }
  }

  /** `Union` without recovery settles on the first alternative that does not fail with a
      parse error: its token is fused at the cursor and becomes the only thing kept, or,
      for a missed optional, the current token is kept unparsed. */
  lemma {:induction false} UnionSettles(fuel: nat, all: seq<Rule>, rest: seq<Rule>, s: Sequence, errs: seq<Error>)
    requires AllPlain(rest)
    ensures var (s', st) := UnionLoop(fuel, all, rest, s, errs);
      var k := FirstNonRejecting(fuel, s, rest);
      var o := if k < |rest| then TryParse(fuel, s, rest[k]) else Fail(OutOfFuel);
      (o.Ok? ==> st == Done && 0 <= s.pointer < Size(s) && s' == ClearRemainder(Fusion(s, o.node).value))
      && (o.Fail? && o.fault.Parse? ==> st == Done && 0 <= s.pointer < Size(s) && s' == ClearRemainder(s))
      && (k < |rest| && o.Fail? && !o.fault.Parse? ==> st.Raised?)
    decreases |rest|
  {
    if rest != [] {
      UnionStep(fuel, all, rest, s, errs);
      var o := TryParse(fuel, s, rest[0]);
      if Rejects(o) {
        assert AllPlain(rest[1..]) by {
          forall i | 0 <= i < |rest[1..]| ensures Plain(rest[1..][i]) {
            assert rest[1..][i] == rest[i + 1];
          }
        }
        UnionSettles(fuel, all, rest[1..], s, errs + [o.fault.e]);
      }
    }
  }

  /** A `Union` token built without recovery holds exactly one child: the token of the
      alternative it settled on, or the unparsed current token when that alternative
      was a missed optional. */
  lemma UnionHasOneChild(fuel: nat, c: Cls, ts: seq<Rule>, s: Sequence)
    requires AllPlain(ts) && s.pointer == 0
    ensures var o := FactoryParse(fuel, c, UnionB(ts), s);
      var k := FirstNonRejecting(fuel, s, ts);
      o.Ok? ==> k < |ts| && 0 < Size(s) && |o.node.children| == 1
                && o.node.children[0] == (if TryParse(fuel, s, ts[k]).Ok? then TryParse(fuel, s, ts[k]).node else s.content[0])
  {
    var k := FirstNonRejecting(fuel, s, ts);
    if k == |ts| {
      UnionAllReject(fuel, ts, ts, s, []);
    } else {
      UnionSettles(fuel, ts, ts, s, []);
      var o := TryParse(fuel, s, ts[k]);
      var (s', st) := UnionLoop(fuel, ts, ts, s, []);
      assert RunBody(fuel, UnionB(ts), s) == (s', st);
      if o.Ok? {
        var x := Fusion(s, o.node).value;
        assert x.content[..1] == [o.node];
        assert s'.content == [o.node];
      } else if o.fault.Parse? {
        assert s'.content == s.content[..1];
      } else {
        assert st.Raised?;
        assert Construct(UnionB(ts)).None?;
      }
    }
  }

  // ----- Array, Chain and OptionsChain extents -----

  /** `parseAndStep` without recovery moves the cursor by at most one and keeps it inside
      the list, whatever the outcome. */
  lemma PlainStepBounded(fuel: nat, s: Sequence, r: Rule)
    requires Plain(r) && 0 <= s.pointer <= Size(s)
    ensures var (s', _) := ParseAndStep(fuel, s, r);
      s.pointer <= s'.pointer <= s.pointer + 1 && s'.pointer <= Size(s')
      && s'.content[..s.pointer] == s.content[..s.pointer]
  {
    SeqParseKeepsPrefix(fuel, s, r);
    PlainSeqParse(fuel, s, r);
    TryParsePlain(fuel, s, r);
  }

  /** Without recovery, the repetition of an `Array` stops after at most `max` items
      when `max` is not 0. */
  lemma {:induction false} ArrayLoopBounded(fuel: nat, t: Rule, max: int, s: Sequence)
    requires Plain(t) && 0 <= s.pointer <= Size(s) && (max > 0 ==> s.pointer <= max)
    ensures var (s', _) := ArrayLoop(fuel, t, max, s);
      s.pointer <= s'.pointer <= Size(s') && (max > 0 ==> s'.pointer <= max)
    decreases fuel
  {
    if !(IsEof(s) || (max != 0 && s.pointer >= max)) && fuel > 0 {
      PlainStepBounded(fuel - 1, s, t);
      var (s1, o) := ParseAndStep(fuel - 1, s, t);
      ArrayLoopBounded(fuel - 1, t, max, s1);
    }
  }

  /** An `Array` built without recovery holds at least `min` children and, when `max`
      is not 0, at most `max`. */
  lemma ArrayExtent(fuel: nat, t: Rule, min: int, max: int, s: Sequence)
    requires Plain(t) && s.pointer == 0
    ensures var (s', st) := ArrayBody(fuel, t, min, max, s);
      st.Done? ==> min <= Size(s') && (max > 0 ==> Size(s') <= max)
  {
    ArrayLoopBounded(fuel, t, max, s);
  }

  /** Without recovery, a chain's loop fuses at most one token per target. */
  lemma {:induction false} ChainLoopBounded(fuel: nat, ts: seq<Rule>, s: Sequence)
    requires AllPlain(ts) && 0 <= s.pointer <= Size(s)
    ensures var (s', _) := ChainLoop(fuel, ts, s);
      s.pointer <= s'.pointer <= s.pointer + |ts| && s'.pointer <= Size(s')
    decreases |ts|
  {
    if ts != [] {
      PlainStepBounded(fuel, s, ts[0]);
      var (s1, o) := ParseAndStep(fuel, s, ts[0]);
      assert AllPlain(ts[1..]) by {
        forall i | 0 <= i < |ts[1..]| ensures Plain(ts[1..][i]) {
          assert ts[1..][i] == ts[i + 1];
        }
      }
      ChainLoopBounded(fuel, ts[1..], s1);
    }
  }

  /** A `Chain` built without recovery holds at most one child per target. */
  lemma ChainExtent(fuel: nat, c: Cls, ts: seq<Rule>, s: Sequence)
    requires AllPlain(ts) && s.pointer == 0
    ensures var o := FactoryParse(fuel, c, ChainB(ts), s);
      o.Ok? ==> |o.node.children| <= |ts|
  {
    ChainLoopBounded(fuel, ts, s);
  }

  // ----- what each target of a chain meets -----

  /** How much of the remainder `rem` a token fused at its start replaces: its length,
      cut at the end of the list as `fusion` cuts it. */
  function Span(n: Node, rem: seq<Node>): (k: nat)
    ensures k <= |rem|
  {
    if Length(n) < |rem| then Length(n) else |rem|
  }

  /** The outcome is an optional's miss (`OptionalNotFound`). */
  predicate IsMiss(o: Outcome) {
    o.Fail? && o.fault.Parse? && o.fault.e.OptionalNotFound?
  }

  lemma AllPlainTail(ts: seq<Rule>)
    requires AllPlain(ts) && ts != []
    ensures Plain(ts[0]) && AllPlain(ts[1..])
  {
    forall i | 0 <= i < |ts[1..]| ensures Plain(ts[1..][i]) {
      assert ts[1..][i] == ts[i + 1];
    }
  }

  /** `tryParse` at the cursor is `tryParse` on the remainder alone, at its start; at the
      end of the list both fail alike. */
  lemma TryParseOnRemainder(fuel: nat, s: Sequence, r: Rule)
    requires 0 <= s.pointer <= Size(s)
    ensures TryParse(fuel, s, r) == TryParse(fuel, Sequence(s.content[s.pointer..], 0), r)
  {
    var t := Sequence(s.content[s.pointer..], 0);
    if s.pointer < Size(s) {
      assert t.content[t.pointer..] == s.content[s.pointer..];
      TryParseIsLocal(fuel, s, t, r);
    }
  }

  /** `isEof` at the cursor is `isEof` at the start of the remainder. */
  lemma EofOnRemainder(s: Sequence)
    requires 0 <= s.pointer <= Size(s)
    ensures IsEof(s) == IsEof(Sequence(s.content[s.pointer..], 0))
  {
    if s.pointer < Size(s) {
      assert s.content[s.pointer..][0] == s.content[s.pointer];
    }
  }

  /** Fusing `n` at the cursor and stepping over it keeps the prefix, puts `n` at the old
      cursor, and leaves after it the part of the remainder that `n` does not span. */
  lemma FuseAndStep(s: Sequence, n: Node)
    requires 0 <= s.pointer <= Size(s)
    ensures var s1 := Next(Fusion(s, n).value);
      var rem := s.content[s.pointer..];
      s1.pointer == s.pointer + 1 && s1.pointer <= Size(s1)
      && s1.content[..s.pointer] == s.content[..s.pointer] && s1.content[s.pointer] == n
      && s1.content[s1.pointer..] == rem[Span(n, rem)..]
  {
    var p := s.pointer;
    var rem := s.content[p..];
    var end := if p + Length(n) < Size(s) then p + Length(n) else Size(s);
    FusionSplits(s, n, end);
    SpliceParts(s.content[..p], n, s.content[end..]);
    assert rem[Span(n, rem)..] == s.content[end..];
  }

  /** Without recovery, `parseAndStep` reports what `tryParse` reports on the remainder
      whenever that is a token or a parse failure, and nothing else becomes either. */
  lemma PlainStepOutcome(fuel: nat, s: Sequence, r: Rule)
    requires Plain(r) && 0 <= s.pointer <= Size(s)
    ensures var (s1, o) := ParseAndStep(fuel, s, r);
      var q := TryParse(fuel, Sequence(s.content[s.pointer..], 0), r);
      (o.Ok? <==> q.Ok?) && (q.Ok? ==> o == q && Next(Fusion(s, o.node).value) == s1)
      && (q.Fail? && q.fault.Parse? <==> o.Fail? && o.fault.Parse?)
      && (q.Fail? && q.fault.Parse? ==> o == q && s1 == s)
  {
    TryParseOnRemainder(fuel, s, r);
    TryParsePlain(fuel, s, r);
    PlainSeqParse(fuel, s, r);
  }

  /** `parseAndStep` without recovery does what `tryParse` reports on the remainder: a
      token is fused at the cursor and stepped over, the remainder after it being what
      the token did not span; a parse failure, the miss of an optional included, is
      reported as is and moves nothing. */
  lemma PlainStepOnRemainder(fuel: nat, s: Sequence, r: Rule)
    requires Plain(r) && 0 <= s.pointer <= Size(s)
    ensures var (s1, o) := ParseAndStep(fuel, s, r);
      var rem := s.content[s.pointer..];
      var q := TryParse(fuel, Sequence(rem, 0), r);
      (o.Ok? <==> q.Ok?) && (q.Ok? ==> o == q)
      && (q.Fail? && q.fault.Parse? <==> o.Fail? && o.fault.Parse?)
      && (q.Fail? && q.fault.Parse? ==> o == q && s1 == s)
      && (o.Ok? ==>
            s1.pointer == s.pointer + 1 && s1.pointer <= Size(s1)
            && s1.content[..s.pointer] == s.content[..s.pointer] && s1.content[s.pointer] == o.node
            && s1.content[s1.pointer..] == rem[Span(o.node, rem)..])
  {
    PlainStepOutcome(fuel, s, r);
    var (s1, o) := ParseAndStep(fuel, s, r);
    if o.Ok? {
      FuseAndStep(s, o.node);
    }
  }

  /** A token placed after `pre` and stepped over, then a run fused after it with `pre`
      and the token kept: the whole run from the token on is the token and that run. */
  lemma StepThenRest(pre: seq<Node>, n: Node, s1: Sequence, s': Sequence)
    requires s1.pointer == |pre| + 1 <= Size(s1) && s1.content[..|pre|] == pre && s1.content[|pre|] == n
    requires s1.pointer <= s'.pointer <= Size(s') && s'.content[..s1.pointer] == s1.content[..s1.pointer]
    ensures s'.content[..|pre|] == pre
    ensures s'.content[|pre|..s'.pointer] == [n] + s'.content[s1.pointer..s'.pointer]
  {
    var p := |pre|;
    assert s'.content[..p] == s'.content[..p + 1][..p];
    assert s'.content[p] == s'.content[..p + 1][p];
  }

  /** The children a chain over `ts` collects from the remainder `rem`: each target runs
      where the previous one's token ends and contributes that token, or nothing when it
      is missed as an optional; any other failure of a target is `None`. */
  function CollectAt(fuel: nat, ts: seq<Rule>, rem: seq<Node>): Option<seq<Node>>
    decreases |ts|
  {
    if ts == [] then Some([])
    else
      var q := TryParse(fuel, Sequence(rem, 0), ts[0]);
      if q.Ok? then
        match CollectAt(fuel, ts[1..], rem[Span(q.node, rem)..])
        case Some(cs) => Some([q.node] + cs)
        case None => None
      else if IsMiss(q) then CollectAt(fuel, ts[1..], rem)
      else None
  }

  /** Without recovery, a chain loop finishes exactly when `CollectAt` collects from the
      remainder, and it has then fused, from the cursor on, exactly those children. */
  lemma {:induction false} ChainLoopCollects(fuel: nat, ts: seq<Rule>, s: Sequence)
    requires AllPlain(ts) && 0 <= s.pointer <= Size(s)
    ensures var (s', st) := ChainLoop(fuel, ts, s);
      var found := CollectAt(fuel, ts, s.content[s.pointer..]);
      (st.Done? <==> found.Some?)
      && (st.Done? ==>
            s.pointer <= s'.pointer <= Size(s') && s'.content[..s.pointer] == s.content[..s.pointer]
            && s'.content[s.pointer..s'.pointer] == found.value)
    decreases |ts|
  {
    if ts != [] {
      var p := s.pointer;
      var rem := s.content[p..];
      AllPlainTail(ts);
      PlainStepOnRemainder(fuel, s, ts[0]);
      var (s1, o) := ParseAndStep(fuel, s, ts[0]);
      ChainLoopCollects(fuel, ts[1..], s1);
      if o.Ok? {
        assert ChainLoop(fuel, ts, s) == ChainLoop(fuel, ts[1..], s1);
        var (s', st) := ChainLoop(fuel, ts[1..], s1);
        if st.Done? {
          StepThenRest(s.content[..p], o.node, s1, s');
        }
      } else if IsMiss(o) {
        assert ChainLoop(fuel, ts, s) == ChainLoop(fuel, ts[1..], s1);
      } else {
        assert ChainLoop(fuel, ts, s).1.Raised?;
      }
    }
  }

  /** `parse` fails with a parse error only as `tryParse` reports it: wrapped in a depth-1
      `ParserError` naming the rule, or as a missed optional. */
  lemma SeqParseWraps(fuel: nat, s: Sequence, r: Rule)
    ensures var (_, o) := SeqParse(fuel, s, r);
      o.Fail? && o.fault.Parse? ==>
        o.fault.e.OptionalNotFound? || (o.fault.e.ParserError? && o.fault.e.depth == 1 && o.fault.e.parser == r)
  {
    TryParseWraps(fuel, s, r);
    var o := TryParse(fuel, s, r);
    if o.Fail? && o.fault.FailedTokenInterruption? && Fusion(s, o.fault.token).Success? {
      TryParseWraps(fuel, Next(Fusion(s, o.fault.token).value), r);
    }
  }

  /** A chain fails with a parse error only as the wrapped error of one of its targets. */
  lemma {:induction false} ChainFailsOnATarget(fuel: nat, ts: seq<Rule>, s: Sequence)
    ensures var (_, st) := ChainLoop(fuel, ts, s);
      st.Raised? && st.fault.Parse? ==>
        st.fault.e.ParserError? && st.fault.e.depth == 1 && exists i :: 0 <= i < |ts| && st.fault.e.parser == ts[i]
    decreases |ts|
  {
    if ts != [] {
      SeqParseWraps(fuel, s, ts[0]);
      var (s1, o) := ParseAndStep(fuel, s, ts[0]);
      ChainFailsOnATarget(fuel, ts[1..], s1);
      var (_, st) := ChainLoop(fuel, ts[1..], s1);
      if st.Raised? && st.fault.Parse? {
        var i :| 0 <= i < |ts[1..]| && st.fault.e.parser == ts[1..][i];
        assert ts[1..][i] == ts[i + 1];
      }
    }
  }

  /** Without recovery, an options chain fuses at most one token per target, and when
      it completes it holds at least one. */
  lemma {:induction false} OptionsLoopBounded(fuel: nat, all: seq<Rule>, rest: seq<Rule>, s: Sequence, errs: seq<Error>)
    requires AllPlain(rest) && 0 <= s.pointer <= Size(s)
    ensures var (s', st) := OptionsLoop(fuel, all, rest, s, errs);
      st.Done? ==> 1 <= Size(s') <= s.pointer + |rest|
    decreases |rest|
  {
    if rest != [] {
      PlainStepBounded(fuel, s, Opt(rest[0]));
      var (s1, o) := ParseAndStep(fuel, s, Opt(rest[0]));
      assert AllPlain(rest[1..]) by {
        forall i | 0 <= i < |rest[1..]| ensures Plain(rest[1..][i]) {
          assert rest[1..][i] == rest[i + 1];
        }
      }
      if o.Ok? {
        OptionsLoopBounded(fuel, all, rest[1..], s1, errs);
      } else if o.fault.Parse? && o.fault.e.OptionalNotFound? {
        OptionsLoopBounded(fuel, all, rest[1..], s1, errs + [o.fault.e.cause]);
      }
    }
  }

  /** A token placed after `pre` and stepped over, then `cs` appended after it: the
      result is `pre`, the token, and `cs`. */
  lemma StepThenJoin(pre: seq<Node>, n: Node, s1: Sequence, cs: seq<Node>, joined: seq<Node>)
    requires s1.pointer == |pre| + 1 <= Size(s1) && s1.content[..|pre|] == pre && s1.content[|pre|] == n
    requires joined == s1.content[..s1.pointer] + cs
    ensures joined == pre + ([n] + cs)
  {
    assert s1.content[..s1.pointer] == s1.content[..|pre|] + [s1.content[|pre|]];
  }

  /** What an options chain over `ts` meets on the remainder `rem`: the children it
      collects and the causes of the misses it records, each target wrapped as an
      optional and run where the previous one's token ends. Another parse failure ends
      the loop with what was gathered before it when the remainder is at its end of
      input, and is `None` otherwise, as is any other failure. */
  function OptionsAt(fuel: nat, ts: seq<Rule>, rem: seq<Node>): Option<(seq<Node>, seq<Error>)>
    decreases |ts|
  {
    if ts == [] then Some(([], []))
    else
      var q := TryParse(fuel, Sequence(rem, 0), Opt(ts[0]));
      if q.Ok? then
        match OptionsAt(fuel, ts[1..], rem[Span(q.node, rem)..])
        case Some((cs, es)) => Some(([q.node] + cs, es))
        case None => None
      else if IsMiss(q) then
        match OptionsAt(fuel, ts[1..], rem)
        case Some((cs, es)) => Some((cs, [q.fault.e.cause] + es))
        case None => None
      else if q.Fail? && q.fault.Parse? && IsEof(Sequence(rem, 0)) then Some(([], []))
      else None
  }

  /** The end of an options chain keeps what lies before the cursor, and raises the
      `EmptyChainError` with the recorded misses exactly when that is nothing. */
  lemma OptionsFinishSpec(all: seq<Rule>, s: Sequence, errs: seq<Error>)
    requires 0 <= s.pointer <= Size(s)
    ensures var (s', st) := OptionsFinish(all, s, errs);
      (st.Done? <==> s.pointer > 0) && (st.Done? ==> s'.content == s.content[..s.pointer] + [])
      && (s.pointer == 0 ==> st == Raised(Parse(MkMulti(EmptyChainErr, Types(all), errs + []))))
  {
    assert errs + [] == errs;
    assert s.content[..s.pointer] + [] == s.content[..s.pointer];
  }

  /** What `OptionsLoopCollects` states of one run of the options loop. */
  predicate OptionsGather(fuel: nat, all: seq<Rule>, rest: seq<Rule>, s: Sequence, errs: seq<Error>)
    requires 0 <= s.pointer <= Size(s)
  {
    var (s', st) := OptionsLoop(fuel, all, rest, s, errs);
    var found := OptionsAt(fuel, rest, s.content[s.pointer..]);
    (st.Done? <==> found.Some? && s.pointer + |found.value.0| > 0)
    && (st.Done? ==> s'.content == s.content[..s.pointer] + found.value.0)
    && (found.Some? && s.pointer + |found.value.0| == 0 ==>
          st == Raised(Parse(MkMulti(EmptyChainErr, Types(all), errs + found.value.1))))
  }

  /** A round of an options chain whose target parses: the loop goes on past its token. */
  lemma OptionsTokenRound(fuel: nat, all: seq<Rule>, rest: seq<Rule>, s: Sequence, errs: seq<Error>)
    requires rest != [] && Plain(rest[0]) && 0 <= s.pointer <= Size(s)
    requires var (s1, o) := ParseAndStep(fuel, s, Opt(rest[0]));
      o.Ok? && 0 <= s1.pointer <= Size(s1) && OptionsGather(fuel, all, rest[1..], s1, errs)
    ensures OptionsGather(fuel, all, rest, s, errs)
  {
    var p := s.pointer;
    PlainStepOnRemainder(fuel, s, Opt(rest[0]));
    var (s1, o) := ParseAndStep(fuel, s, Opt(rest[0]));
    assert OptionsLoop(fuel, all, rest, s, errs) == OptionsLoop(fuel, all, rest[1..], s1, errs);
    var (s', st) := OptionsLoop(fuel, all, rest[1..], s1, errs);
    if st.Done? {
      var found1 := OptionsAt(fuel, rest[1..], s1.content[s1.pointer..]);
      StepThenJoin(s.content[..p], o.node, s1, found1.value.0, s'.content);
    }
  }

  /** A round of an options chain whose target is missed: the loop goes on at the same
      place, with the miss recorded. */
  lemma OptionsMissRound(fuel: nat, all: seq<Rule>, rest: seq<Rule>, s: Sequence, errs: seq<Error>)
    requires rest != [] && Plain(rest[0]) && 0 <= s.pointer <= Size(s)
    requires var (s1, o) := ParseAndStep(fuel, s, Opt(rest[0]));
      IsMiss(o) && OptionsGather(fuel, all, rest[1..], s, errs + [o.fault.e.cause])
    ensures OptionsGather(fuel, all, rest, s, errs)
  {
    PlainStepOnRemainder(fuel, s, Opt(rest[0]));
    var (s1, o) := ParseAndStep(fuel, s, Opt(rest[0]));
    var cause := o.fault.e.cause;
    assert OptionsLoop(fuel, all, rest, s, errs) == OptionsLoop(fuel, all, rest[1..], s, errs + [cause]);
    var found1 := OptionsAt(fuel, rest[1..], s.content[s.pointer..]);
    if found1.Some? {
      assert errs + [cause] + found1.value.1 == errs + ([cause] + found1.value.1);
    }
  }

  /** A round of an options chain whose target fails otherwise: the loop ends there. */
  lemma OptionsLastRound(fuel: nat, all: seq<Rule>, rest: seq<Rule>, s: Sequence, errs: seq<Error>)
    requires rest != [] && Plain(rest[0]) && 0 <= s.pointer <= Size(s)
    requires var (s1, o) := ParseAndStep(fuel, s, Opt(rest[0]));
      !o.Ok? && !IsMiss(o)
    ensures OptionsGather(fuel, all, rest, s, errs)
  {
    PlainStepOnRemainder(fuel, s, Opt(rest[0]));
    var (s1, o) := ParseAndStep(fuel, s, Opt(rest[0]));
    if o.fault.Parse? {
      EofOnRemainder(s);
      if IsEof(s) {
        assert OptionsLoop(fuel, all, rest, s, errs) == OptionsFinish(all, s, errs);
        OptionsFinishSpec(all, s, errs);
      } else {
        assert OptionsLoop(fuel, all, rest, s, errs).1.Raised?;
      }
    } else {
      assert OptionsLoop(fuel, all, rest, s, errs).1.Raised?;
    }
  }

  /** Without recovery, an options chain completes exactly when `OptionsAt` gathers from
      the remainder and something precedes the cursor or was collected; it then holds
      exactly the tokens before the cursor and the collected children. When nothing was
      either, it raises the `EmptyChainError` of all its targets carrying the misses
      recorded before and those gathered, in order. */
  lemma {:induction false} OptionsLoopCollects(fuel: nat, all: seq<Rule>, rest: seq<Rule>, s: Sequence, errs: seq<Error>)
    requires AllPlain(rest) && 0 <= s.pointer <= Size(s)
    ensures var (s', st) := OptionsLoop(fuel, all, rest, s, errs);
      var found := OptionsAt(fuel, rest, s.content[s.pointer..]);
      (st.Done? <==> found.Some? && s.pointer + |found.value.0| > 0)
      && (st.Done? ==> s'.content == s.content[..s.pointer] + found.value.0)
      && (found.Some? && s.pointer + |found.value.0| == 0 ==>
            st == Raised(Parse(MkMulti(EmptyChainErr, Types(all), errs + found.value.1))))
    decreases |rest|
  {
    if rest == [] {
      OptionsFinishSpec(all, s, errs);
    } else {
      AllPlainTail(rest);
      PlainStepBounded(fuel, s, Opt(rest[0]));
      var (s1, o) := ParseAndStep(fuel, s, Opt(rest[0]));
      if o.Ok? {
        OptionsLoopCollects(fuel, all, rest[1..], s1, errs);
        OptionsTokenRound(fuel, all, rest, s, errs);
      } else if IsMiss(o) {
        PlainParseAndStep(fuel, s, Opt(rest[0]));
        OptionsLoopCollects(fuel, all, rest[1..], s, errs + [o.fault.e.cause]);
        OptionsMissRound(fuel, all, rest, s, errs);
      } else {
        OptionsLastRound(fuel, all, rest, s, errs);
      }
      assert OptionsGather(fuel, all, rest, s, errs);
    }
  }

  /** An options chain's loop raises a multi-error only as the `EmptyChainError` of all its
      targets, carrying the misses recorded before the loop followed by `es`, at most one
      per target. */
  lemma {:induction false} OptionsLoopFails(fuel: nat, all: seq<Rule>, rest: seq<Rule>, s: Sequence, errs: seq<Error>)
    returns (es: seq<Error>)
    ensures var (_, st) := OptionsLoop(fuel, all, rest, s, errs);
      st.Raised? && st.fault.Parse? && st.fault.e.MultiError? ==>
        |es| <= |rest| && st.fault.e == MkMulti(EmptyChainErr, Types(all), errs + es)
    decreases |rest|
  {
    es := [];
    assert errs + [] == errs;
    if rest == [] {
      assert OptionsLoop(fuel, all, rest, s, errs) == OptionsFinish(all, s, errs);
    } else {
      SeqParseWraps(fuel, s, Opt(rest[0]));
      var (s1, o) := ParseAndStep(fuel, s, Opt(rest[0]));
      if o.Ok? {
        assert OptionsLoop(fuel, all, rest, s, errs) == OptionsLoop(fuel, all, rest[1..], s1, errs);
        es := OptionsLoopFails(fuel, all, rest[1..], s1, errs);
      } else if o.fault.Parse? && o.fault.e.OptionalNotFound? {
        var cause := o.fault.e.cause;
        assert OptionsLoop(fuel, all, rest, s, errs) == OptionsLoop(fuel, all, rest[1..], s1, errs + [cause]);
        var es1 := OptionsLoopFails(fuel, all, rest[1..], s1, errs + [cause]);
        es := [cause] + es1;
        assert errs + [cause] + es1 == errs + es;
      } else if o.fault.Parse? && IsEof(s1) {
        assert OptionsLoop(fuel, all, rest, s, errs) == OptionsFinish(all, s1, errs);
      }
    }
  }

  /** An `OptionsChain` built without recovery succeeds exactly when `OptionsAt` collects at
      least one child from the input, and is then the composite of exactly those children,
      between one and one per target. When nothing is collected it fails with the
      `EmptyChainError` listing the types of all its targets and the causes of the misses,
      in target order. */
  lemma OptionsChainExtent(fuel: nat, c: Cls, ts: seq<Rule>, s: Sequence)
    requires AllPlain(ts) && s.pointer == 0
    ensures var o := FactoryParse(fuel, c, OptionsB(ts), s);
      var found := OptionsAt(fuel, ts, s.content);
      (o.Ok? <==> found.Some? && found.value.0 != [])
      && (o.Ok? ==> o.node == Comp(c, found.value.0) && 1 <= |o.node.children| <= |ts|)
      && (found.Some? && found.value.0 == [] ==>
            o == Fail(Parse(MkMulti(EmptyChainErr, Types(ts), found.value.1))))
      && (o.Fail? && o.fault.Parse? && o.fault.e.MultiError? ==>
            exists es :: o.fault.e == MkMulti(EmptyChainErr, Types(ts), es))
  {
    assert s.content[0..] == s.content;
    OptionsLoopBounded(fuel, ts, ts, s, []);
    var _ := OptionsLoopFails(fuel, ts, ts, s, []);
    OptionsLoopCollects(fuel, ts, ts, s, []);
    assert Construct(OptionsB(ts)).None?;
    assert RunBody(fuel, OptionsB(ts), s) == OptionsLoop(fuel, ts, ts, s, []);
    var (s', st) := OptionsLoop(fuel, ts, ts, s, []);
    assert s.content[..0] == [];
    var es := OptionsAt(fuel, ts, s.content);
    if es.Some? {
      assert [] + es.value.1 == es.value.1;
    }
  }
}
