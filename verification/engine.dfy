/**
 * The parsing engine: `Sequence.tryParse`/`parse`/`parseAndStep`/`find`, the
 * `parse` methods of the composite tokens, the non-factory parsers, and the
 * `Savior` recovery with its dummy tokens, as one group of mutually recursive
 * functions. Java exceptions are `Fault` values; a `Sequence` that Java mutates
 * in place is returned next to the outcome, also when the call throws (Java
 * mutates some sequences before throwing).
 *
 * Every nested parse and every loop iteration is paid for with `fuel`; when it
 * runs out the result is `OutOfFuel`, a fault no Java catch block intercepts.
 * The parent argument of every Java `parse` is not passed: parent links are
 * recomputed from tree positions (module `Tree`).
 */
module Engine {
  import opened Wrappers
  import opened Kinds
  import opened Nodes
  import opened Sequences
  import opened Grammar
  import opened Errors

  /** What `IParser.parse` does: return a token or throw. */
  datatype Outcome = Ok(node: Node) | Fail(fault: Fault)

  /** What a composite token's own `parse()` does: return normally or throw. */
  datatype Status = Done | Raised(fault: Fault)

  /** The recovery tokens of the `dummy` package, with what each is built from. */
  datatype Dummy =
    | FailedD(cause: Interrupter, token: Node, sync: Rule)   // `FailedToken`: the `Interruption` it recovers from
    | UnknownD(interrupter: Interrupter, sync: Rule)         // `UnknownToken`
    | UnexpectedD(interrupter: Interrupter, sync: Rule)      // `UnexpectedToken`
    | MissingD                                               // `MissingToken`

  function DummyCls(d: Dummy): Cls {
    match d
    case FailedD(_, _, _) => FailedC
    case UnknownD(_, _) => UnknownC
    case UnexpectedD(_, _) => UnexpectedC
    case MissingD => MissingC
  }

  /** `getInterrupter` of a dummy: the interruption's cause for a `FailedToken`, the
      interrupter it was given for the others, the missing-token interrupter for a `MissingToken`. */
  function DummyInterrupter(d: Dummy): Interrupter {
    match d
    case FailedD(c, _, _) => c
    case UnknownD(i, _) => i
    case UnexpectedD(i, _) => i
    case MissingD => MissingInterrupter
  }

  /** The `getValue` of grammar classes, never reached for the symbols a `Literal` holds. */
  const NoGrammarValue: Node -> Value := (n: Node) => Null

  // ----- leaf parsers and bodies without nested parses -----

  /** `Char.parse`: the current character symbol itself; it never moves the pointer. */
  function CharParse(s: Sequence): Outcome {
    if IsEof(s) then Fail(Parse(EOFParseError(0)))
    else
      var cur := Current(s).value;
      if IsGlyph(cur) then Ok(cur) else Fail(Parse(ExpectedGlyphError(0, cur)))
  }

  /** `Epsilon.parser().parse`: a zero-width `Epsilon` at the current offset. */
  function EpsilonParse(s: Sequence): Outcome {
    match CurrentIndex(s)
    case Some(i) => Ok(Sym(EpsilonS, i))
    case None => Fail(Runtime(SeqErr(IndexOutOfBounds)))
  }

  /** `DefinedChar.parse`. Java catches `EOFError` around `getCurrent`, but `getCurrent`
      throws `EOFException`, which escapes as a runtime fault. */
  function DefinedCharBody(wl: string, s: Sequence): (Sequence, Status) {
    match Current(s)
    case None => (s, Raised(Runtime(SeqErr(EOFException))))
    case Some(cur) =>
      if !IsGlyph(cur) then (s, Raised(Parse(ExpectedGlyphError(0, cur))))
      else if cur.kind.c !in wl then (s, Raised(Parse(InvalidCharError(0, wl, cur.kind.c))))
      else (ClearFrom(Next(s), 0), Done)
  }

  /** The constructor checks of a token class: `Array`'s extent range, `Literal`'s non-empty literal. */
  function Construct(b: Body): Option<RuntimeFault> {
    match b
    case ArrayB(_, min, max) =>
      if min < 1 || (max != 0 && max < min) then Some(IllegalExtentRange(min, max)) else None
    case LiteralB(l) => if l == [] then Some(EmptyLiteral) else None
    case _ => None
  }

  /** The end of `Array.parse`, corrected: drop whatever follows the last repetition,
      then insist on at least `min` children. */
  function ArrayFinish(s: Sequence, min: int): (Sequence, Status) {
    var s' := ClearFrom(s, 0);
    if Size(s') < min then (s', Raised(Parse(UndersizedArrayError(0)))) else (s', Done)
  }

  /** The end of `Array.parse` as written: the trailing input is dropped only when the
      cursor is not at end of input, so an array that reaches the end keeps the `EOF`. */
  function ArrayFinishAsWritten(s: Sequence, min: int): (Sequence, Status) {
    var s' := if !IsEof(s) then ClearFrom(s, 0) else s;
    if Size(s') < min then (s', Raised(Parse(UndersizedArrayError(0)))) else (s', Done)
  }

  /** The end of `OptionsChain.parse`: drop the unparsed rest; no child at all is an `EmptyChainError`. */
  function OptionsFinish(all: seq<Rule>, s: Sequence, errs: seq<Error>): (Sequence, Status) {
    var s' := ClearFrom(s, 0);
    if Size(s') == 0 then (s', Raised(Parse(MkMulti(EmptyChainErr, Types(all), errs)))) else (s', Done)
  }

  /** The check `Literal.parse` makes after its array: the joined characters equal the literal. */
  function LiteralCheck(lit: string, s: Sequence): (Sequence, Status) {
    var j := Join(s.content, NoGrammarValue);
    if j == Some(lit) then (s, Done)
    else (s, Raised(Parse(LiteralDoesNotMatch(0, lit, if j.Some? then j.value else ""))))
  }

  /** `fusion(n)` of a parsed token, the outcome being that token. */
  function Fuse(s: Sequence, n: Node): (Sequence, Outcome) {
    match Fusion(s, n)
    case Success(s') => (s', Ok(n))
    case Failure(f) => (s, Fail(Runtime(SeqErr(f))))
  }

  /** The end of `FailedToken.parse` after a successful search that stopped at `c`: cut the
      copy at the sync point; nothing skipped is an `EOFInterrupter`; else cut the token's
      own sequence there and append a `Break` one before the end index. */
  function FailedFinish(s: Sequence, c: Sequence): (Sequence, Status) {
    var c' := ClearFrom(c, 0);
    if Size(c') == 0 then (s, Raised(Interrupt(EOFInterrupter)))
    else match EndIndex(c')
      case None => (s, Raised(Runtime(SeqErr(IndexOutOfBounds))))
      case Some(e) =>
        var s1 := ClearFrom(s, c'.pointer);
        match Append(s1, Sym(BreakS, e - 1))
        case Success(s2) => (s2, Done)
        case Failure(f) => (s1, Raised(Runtime(SeqErr(f))))
  }

  /** The tail shared by `UnknownToken.parse` and `UnexpectedToken.parse` after a
      successful search: cut at the match; nothing skipped is an `EOFInterrupter`. */
  function DummyFinish(s: Sequence): (Sequence, Status) {
    var s' := ClearFrom(s, 0);
    if Size(s') == 0 then (s', Raised(Interrupt(EOFInterrupter))) else (s', Done)
  }

  /** `MissingToken.parse`: a zero-width `Epsilon` fused at the pointer, then everything after it dropped. */
  function MissingBody(s: Sequence): (Sequence, Status) {
    match CurrentIndex(s)
    case None => (s, Raised(Runtime(SeqErr(IndexOutOfBounds))))
    case Some(i) =>
      match Fusion(s, Sym(EpsilonS, i))
      case Failure(f) => (s, Raised(Runtime(SeqErr(f))))
      case Success(s') => (ClearRemainder(s'), Done)
  }

  /** `Savior.parseToken` for a `MissingToken`, whose `parse` throws no interrupter. */
  function MissingToken(s: Sequence): Outcome {
    var (s', st) := MissingBody(s);
    if st.Done? then Fail(FailedTokenInterruption(Comp(MissingC, s'.content))) else Fail(st.fault)
  }

  // ----- the engine -----

  /** `IParser.parse(parent, s)`. */
  function Run(fuel: nat, r: Rule, s: Sequence): Outcome
    decreases fuel, 0, 0
  {
    if fuel == 0 then Fail(OutOfFuel)
    else match r
      case CharP => CharParse(s)
      case EpsilonP => EpsilonParse(s)
      case Opt(t) => OptionalParse(fuel - 1, t, s)
      case AnyP(ts) => AnyLoop(fuel - 1, ts, ts, s, [])
      case SaviorP(t, sync, missing) => SaviorParse(fuel - 1, t, sync, missing, s)
      case Make(c, b) => FactoryParse(fuel - 1, c, b, s)
  }

  /** `Sequence.tryParse`: run `r` on a copy of the remainder; a `GenericParseError` other
      than `OptionalNotFound` is wrapped in a `ParserError` whose cause is an
      `EOFParseError` when the cursor is at end of input. */
  function TryParse(fuel: nat, s: Sequence, r: Rule): Outcome
    decreases fuel, 1, 0
  {
    match CopyRemainder(s)
    case Failure(f) => Fail(Runtime(SeqErr(f)))
    case Success(c) =>
      match Run(fuel, r, c)
      case Fail(Parse(e)) =>
        if e.OptionalNotFound? then Fail(Parse(e))
        else Fail(Parse(MkParserError(if IsEof(s) then EOFParseError(0) else e, r)))
      case o => o
  }

  /** `Sequence.parse` with `onFail`: fuse a success at the pointer. A recovered
      `UnexpectedToken` is fused, stepped over, and the rule retried once; another
      recovered dummy is fused as the result. An `Interruption` fuses its partial token,
      drops the rest, and rethrows the bare interrupter. */
  function SeqParse(fuel: nat, s: Sequence, r: Rule): (Sequence, Outcome)
    decreases fuel, 2, 0
  {
    match TryParse(fuel, s, r)
    case Ok(n) => Fuse(s, n)
    case Fail(FailedTokenInterruption(tok)) =>
      if ErrorOf(tok).UnexpectedTokenError? then
        match Fusion(s, tok)
        case Failure(f) => (s, Fail(Runtime(SeqErr(f))))
        case Success(s1) =>
          var s2 := Next(s1);
          match TryParse(fuel, s2, r)
          case Ok(n) => Fuse(s2, n)
          case Fail(f) => (s2, Fail(f))
      else Fuse(s, tok)
    case Fail(Interruption(i, tok)) =>
      (match Fusion(s, tok)
       case Failure(f) => (s, Fail(Runtime(SeqErr(f))))
       case Success(s1) => (ClearRemainder(s1), Fail(Interrupt(i))))
    case Fail(f) => (s, Fail(f))
  }

  /** `Sequence.parseAndStep`: `parse`, then step past the fused token. */
  function ParseAndStep(fuel: nat, s: Sequence, r: Rule): (Sequence, Outcome)
    decreases fuel, 3, 0
  {
    var (s', o) := SeqParse(fuel, s, r);
    if o.Ok? then (Next(s'), o) else (s', o)
  }

  /** `Sequence.find`: advance one character at a time until `target` parses at the
      cursor; `NotFoundError` at end of input or when a character cannot be stepped over. */
  function Find(fuel: nat, s: Sequence, target: Rule): (Sequence, Status)
    decreases fuel, 4, 0
  {
    if IsEof(s) then (s, Raised(Parse(NotFoundError(0, target))))
    else if fuel == 0 then (s, Raised(OutOfFuel))
    else match TryParse(fuel - 1, s, target)
      case Ok(_) => (s, Done)
      case Fail(f) =>
        if f.Parse? || f.Interrupt? || f.Interruption? then
          var (s1, o) := ParseAndStep(fuel - 1, s, CharP);
          if o.Ok? then Find(fuel - 1, s1, target)
          else if o.fault.Parse? || o.fault.Interrupt? then (s1, Raised(Parse(NotFoundError(0, target))))
          else (s1, Raised(o.fault))
        else (s, Raised(f))
  }

  /** The loop of `Chain.parse`: each target once, in order; a missed optional is skipped. */
  function ChainLoop(fuel: nat, ts: seq<Rule>, s: Sequence): (Sequence, Status)
    decreases fuel, 4, |ts|
  {
    if ts == [] then (s, Done)
    else
      var (s1, o) := ParseAndStep(fuel, s, ts[0]);
      match o
      case Ok(_) => ChainLoop(fuel, ts[1..], s1)
      case Fail(Parse(OptionalNotFound(_, _, _))) => ChainLoop(fuel, ts[1..], s1)
      case Fail(f) => (s1, Raised(f))
  }

  /** The loop of `Array.parse`: repeat while not at end of input and, when `max` is not 0,
      fewer than `max` repetitions were fused; a missed optional repeats without progress,
      another parse error ends the repetition. */
  function ArrayLoop(fuel: nat, t: Rule, max: int, s: Sequence): (Sequence, Status)
    decreases fuel, 4, 0
  {
    if IsEof(s) || (max != 0 && s.pointer >= max) then (s, Done)
    else if fuel == 0 then (s, Raised(OutOfFuel))
    else
      var (s1, o) := ParseAndStep(fuel - 1, s, t);
      match o
      case Ok(_) => ArrayLoop(fuel - 1, t, max, s1)
      case Fail(Parse(OptionalNotFound(_, _, _))) => ArrayLoop(fuel - 1, t, max, s1)
      case Fail(Parse(_)) => (s1, Done)
      case Fail(f) => (s1, Raised(f))
  }

  /** The loop of `Union.parse`: the first alternative that parses (or misses as an
      optional) becomes the only child; failures are collected for the `UnionError`. */
  function UnionLoop(fuel: nat, all: seq<Rule>, rest: seq<Rule>, s: Sequence, errs: seq<Error>): (Sequence, Status)
    decreases fuel, 4, |rest|
  {
    if rest == [] then (s, Raised(Parse(MkMulti(UnionErr, Types(all), errs))))
    else
      var (s1, o) := SeqParse(fuel, s, rest[0]);
      match o
      case Ok(_) => (ClearRemainder(s1), Done)
      case Fail(Parse(e)) =>
        if e.OptionalNotFound? then (ClearRemainder(s1), Done)
        else if e.ParserError? then UnionLoop(fuel, all, rest[1..], s1, errs + [e])
        else (s1, Raised(Parse(e)))
      case Fail(f) => (s1, Raised(f))
  }

  /** The loop of `OptionsChain.parse`: every target once, as an optional; misses record
      the underlying error; another parse error stops the loop at end of input and is
      rethrown elsewhere. */
  function OptionsLoop(fuel: nat, all: seq<Rule>, rest: seq<Rule>, s: Sequence, errs: seq<Error>): (Sequence, Status)
    decreases fuel, 4, |rest|
  {
    if rest == [] then OptionsFinish(all, s, errs)
    else
      var (s1, o) := ParseAndStep(fuel, s, Opt(rest[0]));
      match o
      case Ok(_) => OptionsLoop(fuel, all, rest[1..], s1, errs)
      case Fail(Parse(OptionalNotFound(_, cause, _))) => OptionsLoop(fuel, all, rest[1..], s1, errs + [cause])
      case Fail(Parse(e)) => if IsEof(s1) then OptionsFinish(all, s1, errs) else (s1, Raised(Parse(e)))
      case Fail(f) => (s1, Raised(f))
  }

  /** The loop of `Any.parse`: probe each target with `tryParse`, and parse for real with
      the first whose probe succeeds; misses of optionals are skipped, other parse
      errors wrapped and collected for the `AnyParserError`. */
  function AnyLoop(fuel: nat, all: seq<Rule>, rest: seq<Rule>, s: Sequence, errs: seq<Error>): Outcome
    decreases fuel, 4, |rest|
  {
    if rest == [] then Fail(Parse(MkMulti(AnyErr, Types(all), errs)))
    else
      var t := rest[0];
      var o := match TryParse(fuel, s, t)
        case Ok(_) => Run(fuel, t, s)
        case f => f;
      match o
      case Ok(n) => Ok(n)
      case Fail(Parse(e)) =>
        if e.OptionalNotFound? then AnyLoop(fuel, all, rest[1..], s, errs)
        else AnyLoop(fuel, all, rest[1..], s, errs + [MkParserError(e, t)])
      case Fail(f) => Fail(f)
  }

  /** `Array.parse`. */
  function ArrayBody(fuel: nat, t: Rule, min: int, max: int, s: Sequence): (Sequence, Status)
    decreases fuel, 5, 0
  {
    var (s1, st) := ArrayLoop(fuel, t, max, s);
    if st.Raised? then (s1, st) else ArrayFinish(s1, min)
  }

  /** `Array.parse` as written, ending with `ArrayFinishAsWritten`. */
  function ArrayBodyAsWritten(fuel: nat, t: Rule, min: int, max: int, s: Sequence): (Sequence, Status) {
    var (s1, st) := ArrayLoop(fuel, t, max, s);
    if st.Raised? then (s1, st) else ArrayFinishAsWritten(s1, min)
  }

  /** `Literal.parse` as written: its array ends with `ArrayFinishAsWritten`, an
      `UndersizedArrayError` is swallowed, and the join is compared with the literal. */
  function LiteralBodyAsWritten(fuel: nat, lit: string, s: Sequence): (Sequence, Status) {
    var a := LiteralArray(lit);
    var (s1, st) := ArrayBodyAsWritten(fuel, a.target, a.min, a.max, s);
    if st.Raised? && !(st.fault.Parse? && st.fault.e.UndersizedArrayError?) then (s1, st)
    else LiteralCheck(lit, s1)
  }

  /** `Optional.parse`: a `ParserError` of the target becomes `OptionalNotFound`. */
  function OptionalParse(fuel: nat, t: Rule, s: Sequence): Outcome
    decreases fuel, 5, 0
  {
    var (_, o) := SeqParse(fuel, s, t);
    if o.Fail? && o.fault.Parse? && IsParserError(o.fault.e) then Fail(Parse(MkOptionalNotFound(o.fault.e, t)))
    else o
  }

  /** A composite token's `parse()`, run on its own sequence. */
  function RunBody(fuel: nat, b: Body, s: Sequence): (Sequence, Status)
    decreases fuel, 6, 0
  {
    match b
    case ChainB(ts) =>
      var (s1, st) := ChainLoop(fuel, ts, s);
      if st.Done? then (ClearFrom(s1, 0), Done) else (s1, st)
    case ArrayB(t, min, max) => ArrayBody(fuel, t, min, max, s)
    case UnionB(ts) => UnionLoop(fuel, ts, ts, s, [])
    case OptionsB(ts) => OptionsLoop(fuel, ts, ts, s, [])
    case LiteralB(lit) =>
      var a := LiteralArray(lit);
      var (s1, st) := ArrayBody(fuel, a.target, a.min, a.max, s);
      if st.Raised? && !(st.fault.Parse? && st.fault.e.UndersizedArrayError?) then (s1, st)
      else LiteralCheck(lit, s1)
    case DefinedCharB(wl) => DefinedCharBody(wl, s)
    case CastB(t) =>
      var (s1, o) := ParseAndStep(fuel, s, t);
      if o.Ok? then (ClearFrom(s1, 0), Done) else (s1, Raised(o.fault))
    case RaiseB(i) => (s, Raised(Interrupt(i)))
  }

  /** `GenericFactory.parse`: build the token on `s` (constructor checks first), run its
      `parse()`; an interrupter becomes an `Interruption` carrying the partial token,
      and `onParseError` returns a `ParserError` unchanged. */
  function FactoryParse(fuel: nat, c: Cls, b: Body, s: Sequence): Outcome
    decreases fuel, 7, 0
  {
    match Construct(b)
    case Some(rf) => Fail(Runtime(rf))
    case None =>
      var (s1, st) := RunBody(fuel, b, s);
      match st
      case Done => Ok(Comp(c, s1.content))
      case Raised(Interrupt(i)) => Fail(Interruption(i, Comp(c, s1.content)))
      case Raised(f) => Fail(f)
  }

  /** The `parse` methods of `FailedToken`, `UnknownToken`, `UnexpectedToken` and `MissingToken`. */
  function DummyParse(fuel: nat, d: Dummy, s: Sequence): (Sequence, Status)
    decreases fuel, 6, 0
  {
    match d
    case FailedD(cause, tok, sync) =>
      var (c, st) := Find(fuel, s, sync);
      if st.Raised? then
        (s, if st.fault.Parse? && st.fault.e.NotFoundError? then Raised(Interruption(cause, tok)) else st)
      else FailedFinish(s, c)
    case UnknownD(i, sync) =>
      var (s1, st) := Find(fuel, s, sync);
      if st.Raised? then
        (s1, if st.fault.Parse? && st.fault.e.NotFoundError? then Raised(Interrupt(i)) else st)
      else DummyFinish(s1)
    case UnexpectedD(_, sync) =>
      var (s1, st) := Find(fuel, s, sync);
      if st.Raised? then (s1, st) else DummyFinish(s1)
    case MissingD => MissingBody(s)
  }

  /** `Savior.parseToken`: parse the dummy; a parsed dummy is thrown as a
      `FailedTokenInterruption`. End of input falls back to a `MissingToken` when the
      rule has a missing policy; a failed search rethrows the dummy's interrupter; any
      other interrupter becomes an `Interruption` carrying the dummy. */
  function ParseToken(fuel: nat, missing: bool, d: Dummy, s: Sequence): Outcome
    decreases fuel, 7, 0
  {
    var (s1, st) := DummyParse(fuel, d, s);
    var token := Comp(DummyCls(d), s1.content);
    match st
    case Done => Fail(FailedTokenInterruption(token))
    case Raised(Interrupt(EOFInterrupter)) =>
      if !missing then Fail(Interrupt(DummyInterrupter(d))) else MissingToken(s)
    case Raised(Parse(NotFoundError(_, _))) => Fail(Interrupt(DummyInterrupter(d)))
    case Raised(Interrupt(_)) => Fail(Interruption(DummyInterrupter(d), token))
    case Raised(f) => Fail(f)
  }

  /** The dummy `Savior.onInterruption` builds for a non-fatal `Interruption`. */
  function OnInterruption(i: Interrupter, tok: Node, t: Rule, sync: Option<Rule>, missing: bool): Dummy {
    if sync.Some? then FailedD(i, tok, sync.value)
    else if missing then MissingD
    else UnexpectedD(i, t)
  }

  /** The dummy `Savior.onInterrupter` builds for a bare interrupter. */
  function OnInterrupter(i: Interrupter, t: Rule, sync: Option<Rule>): Dummy {
    if sync.Some? then UnknownD(i, sync.value) else UnexpectedD(i, t)
  }

  /** `Savior.parse`: a success of the target is returned; an interruption is
      classified into a dummy, unless its cause is fatal; other failures pass. */
  function SaviorParse(fuel: nat, t: Rule, sync: Option<Rule>, missing: bool, s: Sequence): Outcome
    decreases fuel, 8, 0
  {
    match Run(fuel, t, s)
    case Fail(Interruption(i, tok)) =>
      if IsFatal(i) then Fail(Interruption(i, tok))
      else ParseToken(fuel, missing, OnInterruption(i, tok, t, sync, missing), s)
    case Fail(Interrupt(i)) => ParseToken(fuel, missing, OnInterrupter(i, t, sync), s)
    case o => o
  }
}
