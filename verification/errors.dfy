/**
 * The parse errors (`GenericParseError` and its subclasses) and the other
 * exceptions the engine throws, as values. An error's `depth` is the mutable
 * field Java rewrites through `setDepth`; a constructor here is the bare value
 * and `MkParserError`, `MkOptionalNotFound` and `MkMulti` perform what the Java
 * constructors do to the depths.
 */
module Errors {
  import opened Wrappers
  import opened Kinds
  import opened Nodes
  import opened Grammar
  import opened Sequences

  /** The `MultiParseError` subclasses. */
  datatype MultiKind = UnionErr | EmptyChainErr | AnyErr

  datatype Error =
    | ParserError(depth: int, cause: Error, parser: Rule)
    | OptionalNotFound(depth: int, cause: Error, parser: Rule)
    | EOFParseError(depth: int)
    | NotFoundError(depth: int, target: Rule)
    | ExpectedGlyphError(depth: int, found: Node)
    | InvalidCharError(depth: int, expected: string, actual: char)
    | LiteralDoesNotMatch(depth: int, literal: string, value: string)
    | UndersizedArrayError(depth: int)
    | MultiError(depth: int, kind: MultiKind, types: seq<Cls>, errors: seq<Error>)

  /** `instanceof ParserError` (an `OptionalNotFound` is one). */
  predicate IsParserError(e: Error) {
    e.ParserError? || e.OptionalNotFound?
  }

  /** The runtime exceptions: a sequence fault, `IllegalExtentRangeException`, `EmptyLiteralException`. */
  datatype RuntimeFault = SeqErr(f: SeqFault) | IllegalExtentRange(min: int, max: int) | EmptyLiteral

  /** Everything a parse can throw. `Parse` is a `GenericParseError`, `Interrupt` a bare
      `GenericInterrupter`; `Interruption` and `FailedTokenInterruption` are the runtime
      exceptions carrying a token. `OutOfFuel` belongs to the model only: the bound on
      nested parses and loop iterations ran out. */
  datatype Fault =
    | Parse(e: Error)
    | Interrupt(i: Interrupter)
    | Interruption(cause: Interrupter, token: Node)
    | FailedTokenInterruption(token: Node)
    | Runtime(r: RuntimeFault)
    | OutOfFuel

  /** `setDepth(d)`: a `ParserError` also sets its cause to `d + 1`, recursively;
      every other error only sets its own depth. */
  function SetDepth(e: Error, d: int): (r: Error)
    ensures r.depth == d
    ensures IsParserError(r) <==> IsParserError(e)
    decreases e
  {
    match e
    case ParserError(_, c, p) => ParserError(d, SetDepth(c, d + 1), p)
    case OptionalNotFound(_, c, p) => OptionalNotFound(d, SetDepth(c, d + 1), p)
    case EOFParseError(_) => EOFParseError(d)
    case NotFoundError(_, t) => NotFoundError(d, t)
    case ExpectedGlyphError(_, n) => ExpectedGlyphError(d, n)
    case InvalidCharError(_, w, c) => InvalidCharError(d, w, c)
    case LiteralDoesNotMatch(_, l, v) => LiteralDoesNotMatch(d, l, v)
    case UndersizedArrayError(_) => UndersizedArrayError(d)
    case MultiError(_, k, ts, es) => MultiError(d, k, ts, es)
  }

  /** `new ParserError(sequence, cause, parser)`: the constructor calls `setDepth(1)`. */
  function MkParserError(cause: Error, parser: Rule): (r: Error)
    ensures r.ParserError? && r.depth == 1 && r.parser == parser
  {
    SetDepth(ParserError(0, cause, parser), 1)
  }

  /** `new OptionalNotFound(sequence, cause, parser)`. */
  function MkOptionalNotFound(cause: Error, parser: Rule): (r: Error)
    ensures r.OptionalNotFound? && r.depth == 1 && r.parser == parser
  {
    SetDepth(OptionalNotFound(0, cause, parser), 1)
  }

  /** `SetDepth` applied to each error of a list. */
  function SetDepths(es: seq<Error>, d: int): (r: seq<Error>)
    ensures |r| == |es|
    ensures forall i :: 0 <= i < |es| ==> r[i] == SetDepth(es[i], d)
  {
    if es == [] then [] else [SetDepth(es[0], d)] + SetDepths(es[1..], d)
  }

  /** A `MultiParseError` constructor: depth 0, and every sub-error set to depth 1. */
  function MkMulti(kind: MultiKind, types: seq<Cls>, errors: seq<Error>): Error {
    MultiError(0, kind, types, SetDepths(errors, 1))
  }

  /** The error with every depth along its cause chain reset to 0: what an error
      says apart from where it is printed. */
  function Erase(e: Error): Error
    decreases e
  {
    match e
    case ParserError(_, c, p) => ParserError(0, Erase(c), p)
    case OptionalNotFound(_, c, p) => OptionalNotFound(0, Erase(c), p)
    case EOFParseError(_) => EOFParseError(0)
    case NotFoundError(_, t) => NotFoundError(0, t)
    case ExpectedGlyphError(_, n) => ExpectedGlyphError(0, n)
    case InvalidCharError(_, w, c) => InvalidCharError(0, w, c)
    case LiteralDoesNotMatch(_, l, v) => LiteralDoesNotMatch(0, l, v)
    case UndersizedArrayError(_) => UndersizedArrayError(0)
    case MultiError(_, k, ts, es) => MultiError(0, k, ts, es)
  }

  /** `getSource`: the first error down the cause chain that is not a `ParserError`. */
  function Source(e: Error): (r: Error)
    ensures !IsParserError(r)
    decreases e
  {
    if IsParserError(e) then Source(e.cause) else e
  }

  /** `getOrigin`: this error when it is not a `ParserError`, else the cause's origin. */
  function Origin(e: Error): Error
    decreases e
  {
    match e
    case ParserError(_, c, _) => Origin(c)
    case OptionalNotFound(_, c, _) => Origin(c)
    case _ => e
  }

  /** `isEof`: true at an `EOFParseError`, delegated to the cause by a `ParserError`, false otherwise. */
  predicate IsEofError(e: Error)
    decreases e
  {
    match e
    case ParserError(_, c, _) => IsEofError(c)
    case OptionalNotFound(_, c, _) => IsEofError(c)
    case EOFParseError(_) => true
    case _ => false
  }

  /** The `k`-th error down the cause chain, `e` itself for `k == 0`. */
  function ChainAt(e: Error, k: nat): Option<Error>
    decreases k
  {
    if k == 0 then Some(e)
    else if IsParserError(e) then ChainAt(e.cause, k - 1)
    else None
  }

  // ----- properties -----

  /** `setDepth` changes depths only. */
  lemma {:induction false} SetDepthOnlyChangesDepths(e: Error, d: int)
    ensures Erase(SetDepth(e, d)) == Erase(e)
    decreases e
  {
    if IsParserError(e) {
      SetDepthOnlyChangesDepths(e.cause, d + 1);
    }
  }

  /** After `setDepth(d)` the error `k` steps down the cause chain has depth `d + k`. */
  lemma {:induction false} SetDepthNumbersTheChain(e: Error, d: int, k: nat)
    requires ChainAt(e, k).Some?
    ensures ChainAt(SetDepth(e, d), k).Some?
    ensures ChainAt(SetDepth(e, d), k).value.depth == d + k
    decreases k
  {
    if k > 0 {
      SetDepthNumbersTheChain(e.cause, d + 1, k - 1);
    }
  }

  /** For a `ParserError` chain, `getOrigin` and `getSource` agree, and the chain
      is an end-of-input error exactly when its source is an `EOFParseError`. */
  lemma {:induction false} SourceIsOrigin(e: Error)
    ensures Origin(e) == Source(e)
    ensures IsEofError(e) <==> Source(e).EOFParseError?
    decreases e
  {
    if IsParserError(e) {
      SourceIsOrigin(e.cause);
    }
  }

  /** Renumbering keeps the source (up to its depth) and the end-of-input verdict. */
  lemma {:induction false} SetDepthKeepsSource(e: Error, d: int)
    ensures Erase(Source(SetDepth(e, d))) == Erase(Source(e))
    ensures IsEofError(SetDepth(e, d)) == IsEofError(e)
    decreases e
  {
    if IsParserError(e) {
      SetDepthKeepsSource(e.cause, d + 1);
    }
  }

  /** A `ParserError` built around `cause` sits at depth 1 with its cause chain numbered
      from 2, reports the same source and end-of-input verdict as the cause, and
      otherwise holds the cause unchanged. */
  lemma WrappedCause(cause: Error, parser: Rule, k: nat)
    requires ChainAt(cause, k).Some?
    ensures ChainAt(MkParserError(cause, parser), k + 1).Some?
    ensures ChainAt(MkParserError(cause, parser), k + 1).value.depth == k + 2
    ensures Erase(MkParserError(cause, parser).cause) == Erase(cause)
    ensures Erase(Source(MkParserError(cause, parser))) == Erase(Source(cause))
    ensures IsEofError(MkParserError(cause, parser)) == IsEofError(cause)
  {
    SetDepthNumbersTheChain(ParserError(0, cause, parser), 1, k + 1);
    SetDepthOnlyChangesDepths(cause, 2);
    SetDepthKeepsSource(cause, 2);
  }

  /** A `MultiParseError` keeps its sub-errors in the given order, each at depth 1 and
      otherwise unchanged, and keeps the given types. */
  lemma MultiKeepsErrors(kind: MultiKind, types: seq<Cls>, errors: seq<Error>)
    ensures MkMulti(kind, types, errors).types == types
    ensures |MkMulti(kind, types, errors).errors| == |errors|
    ensures forall i :: 0 <= i < |errors| ==>
      MkMulti(kind, types, errors).errors[i].depth == 1 &&
      Erase(MkMulti(kind, types, errors).errors[i]) == Erase(errors[i])
  {
    forall i | 0 <= i < |errors|
      ensures Erase(SetDepth(errors[i], 1)) == Erase(errors[i])
    {
      SetDepthOnlyChangesDepths(errors[i], 1);
    }
  }

  // ----- `isSource` -----

  const BaseParseErrorC := Ext("BaseParseError", Top)
  const GenericParseErrorC := Ext("GenericParseError", BaseParseErrorC)
  const ParserErrorC := Ext("ParserError", GenericParseErrorC)
  const OptionalNotFoundC := Ext("OptionalNotFound", ParserErrorC)
  const MultiParseErrorC := Ext("MultiParseError", GenericParseErrorC)

  /** The Java class of an error. */
  function ErrorClass(e: Error): Cls {
    match e
    case ParserError(_, _, _) => ParserErrorC
    case OptionalNotFound(_, _, _) => OptionalNotFoundC
    case EOFParseError(_) => Ext("EOFParseError", GenericParseErrorC)
    case NotFoundError(_, _) => Ext("NotFoundError", GenericParseErrorC)
    case ExpectedGlyphError(_, _) => Ext("ExpectedGlyphError", GenericParseErrorC)
    case InvalidCharError(_, _, _) => Ext("InvalidCharError", GenericParseErrorC)
    case LiteralDoesNotMatch(_, _, _) => Ext("LiteralDoesNotMatch", GenericParseErrorC)
    case UndersizedArrayError(_) => Ext("UndersizedArrayError", GenericParseErrorC)
    case MultiError(_, k, _, _) =>
      match k
      case UnionErr => Ext("UnionError", MultiParseErrorC)
      case EmptyChainErr => Ext("EmptyChainError", MultiParseErrorC)
      case AnyErr => Ext("AnyParserError", MultiParseErrorC)
  }

  /** `ParserError.isSource(type)` as written: `getSource().getClass().isAssignableFrom(type)`,
      which holds when `type` is a subclass of the source's class. */
  predicate IsSourceAsWritten(e: Error, t: Cls) {
    IsA(t, ErrorClass(Source(e)))
  }

  /** `isSource(type)` as its name promises: the source is an instance of `type`. */
  predicate IsSource(e: Error, t: Cls) {
    IsA(ErrorClass(Source(e)), t)
  }

  /** As written, asking whether a `ParserError` has a `GenericParseError` source always
      answers no, although every source is one: an end-of-input failure wrapped once is the
      smallest example. */
  lemma IsSourceAsWrittenIsReversed(e: Error)
    ensures !IsSourceAsWritten(e, GenericParseErrorC) && IsSource(e, GenericParseErrorC)
    ensures !IsSourceAsWritten(ParserError(1, EOFParseError(2), CharP), GenericParseErrorC)
  {
    var c := ErrorClass(Source(e));
    assert IsA(c, GenericParseErrorC);
    assert Height(GenericParseErrorC) < Height(c);
    if IsA(GenericParseErrorC, c) {
      IsAHeight(GenericParseErrorC, c);
    }
    var src := Ext("EOFParseError", GenericParseErrorC);
    assert Source(ParserError(1, EOFParseError(2), CharP)) == EOFParseError(2);
    assert Height(GenericParseErrorC) < Height(src);
    if IsA(GenericParseErrorC, src) {
      IsAHeight(GenericParseErrorC, src);
    }
  }

  /** The intended test accepts the source's own class and every superclass of it up to
      `GenericParseError`, and never the class of a `ParserError`. */
  lemma IsSourceAcceptsSuperclasses(e: Error)
    ensures IsSource(e, ErrorClass(Source(e)))
    ensures IsSource(e, GenericParseErrorC) && IsSource(e, BaseParseErrorC)
    ensures !IsSource(e, ParserErrorC)
  {
    var c := ErrorClass(Source(e));
    assert IsA(c, GenericParseErrorC);
    assert IsA(GenericParseErrorC, BaseParseErrorC);
    IsATransitive(c, GenericParseErrorC, BaseParseErrorC);
    if IsA(c, ParserErrorC) {
      IsALinear(c, ParserErrorC, GenericParseErrorC);
      assert false;
    }
  }
}
