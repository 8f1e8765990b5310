/**
 * Parsers as data. A Java `IParser` is an object whose `parse` builds a token;
 * here a `Rule` names the parser and its parameters, and the engine interprets
 * it. `Make(cls, body)` is a `Factory` for a composite token class whose
 * `parse` method is the `Body`; the remaining rules are the parsers of the
 * `parsers` package that are not factories.
 */
module Grammar {
  import opened Wrappers
  import opened Kinds

  /** The `GenericInterrupter` subclasses: `EOFInterrupter`, `MissingTokenInterrupter`
      (a `FatalInterrupter`), and the grammar's own fatal or pending interrupters. */
  datatype Interrupter =
    | EOFInterrupter
    | MissingInterrupter
    | FatalInterrupter(name: string)
    | PendingInterrupter(name: string)

  /** `instanceof FatalInterrupter`. */
  predicate IsFatal(i: Interrupter) {
    i.MissingInterrupter? || i.FatalInterrupter?
  }

  datatype Rule =
    | CharP                                   // `Char`, also `Atom.parser()`
    | EpsilonP                                // `Epsilon.parser()`
    | Opt(target: Rule)                       // `Optional`
    | AnyP(targets: seq<Rule>)                // `Any`
    | SaviorP(target: Rule, sync: Option<Rule>, missing: bool)  // `Savior`
    | Make(cls: Cls, body: Body)              // `Factory.of(cls, ...)`

  /** The `parse` method of the composite token a factory builds. */
  datatype Body =
    | ChainB(targets: seq<Rule>)              // `Chain` (and `Trim`)
    | ArrayB(target: Rule, min: int, max: int) // `Array` (and `List`, `CharArray`, `Trimmed`)
    | UnionB(targets: seq<Rule>)              // `Union`
    | OptionsB(targets: seq<Rule>)            // `OptionsChain`
    | LiteralB(literal: string)               // `Literal` (and `StringLiteral`)
    | DefinedCharB(whitelist: string)         // `DefinedChar`
    | CastB(target: Rule)                     // `Cast`
    | RaiseB(i: Interrupter)                  // grammar code that throws an interrupter

  /** `IParser.getType`: the class of the token a parser yields. `Char` yields a
      character symbol, `Any` the `ICompositeToken` interface, `Optional` and
      `Savior` whatever their target yields. */
  function RuleType(r: Rule): Cls {
    match r
    case CharP => AtomC
    case EpsilonP => EpsilonC
    case Opt(t) => RuleType(t)
    case AnyP(_) => CompositeC
    case SaviorP(t, _, _) => RuleType(t)
    case Make(c, _) => c
  }

  /** `GenericFactory.getTypes`: the result classes of a list of parsers, in order. */
  function Types(rs: seq<Rule>): (r: seq<Cls>)
    ensures |r| == |rs|
    ensures forall i :: 0 <= i < |rs| ==> r[i] == RuleType(rs[i])
  {
    if rs == [] then [] else [RuleType(rs[0])] + Types(rs[1..])
  }

  // ----- the library's parser constructors -----

  /** `DefinedChar.parser(whitelist)`. */
  function DefinedCharP(whitelist: string): Rule {
    Make(DefinedCharC, DefinedCharB(whitelist))
  }

  /** `StringLiteral.parser(literal)`. */
  function StringLiteralP(literal: string): Rule {
    Make(StringLiteralC, LiteralB(literal))
  }

  /** `Trimmed.parser(blacklist)`: an optional run of at least one blacklisted character. */
  function TrimmedP(blacklist: string): Rule {
    Opt(Make(TrimmedC, ArrayB(DefinedCharP(blacklist), 1, 0)))
  }

  /** A `List` subclass: an `Array` with at least one and no upper bound. */
  function ListB(target: Rule): Body {
    ArrayB(target, 1, 0)
  }

  /** `Trim.parser(target, left, right)` for a `Trim` class `cls`: the chain
      `[Trimmed(left), target, Trimmed(right)]`. */
  function TrimP(cls: Cls, target: Rule, left: string, right: string): (r: Rule)
    ensures r.Make? && r.body.ChainB? && |r.body.targets| == 3
    ensures r.body.targets[1] == target
    ensures r.body.targets[0] == TrimmedP(left) && r.body.targets[2] == TrimmedP(right)
  {
    Make(cls, ChainB([TrimmedP(left), target, TrimmedP(right)]))
  }

  /** `LeftTrim.parser(target, blacklist)`: no right padding blacklist. */
  function LeftTrimP(target: Rule, blacklist: string): Rule {
    TrimP(LeftTrimC, target, blacklist, "")
  }

  /** `RightTrim.parser(target, blacklist)`: no left padding blacklist. */
  function RightTrimP(target: Rule, blacklist: string): Rule {
    TrimP(RightTrimC, target, "", blacklist)
  }

  /** A `Literal`'s underlying array: `Char` repeated exactly as often as the literal is long. */
  function LiteralArray(literal: string): (b: Body)
    ensures b.ArrayB? && b.target == CharP && b.min == b.max == |literal|
  {
    ArrayB(CharP, |literal|, |literal|)
  }

  // ----- Utils -----

  /** `Utils.prependParam`: the constructor arguments `[parent, sequence] + rest`. */
  function PrependParam<T>(parent: T, sequence: T, rest: seq<T>): (r: seq<T>)
    ensures |r| == |rest| + 2
    ensures r[0] == parent && r[1] == sequence
    ensures r[2..] == rest
  {
    [parent, sequence] + rest
  }

  /** `Utils.mergeParsers` and `Utils.mergeStrings`: `[first, second] + others`. */
  function Merge<T>(first: T, second: T, others: seq<T>): (r: seq<T>)
    ensures |r| == |others| + 2
    ensures r[0] == first && r[1] == second
    ensures forall i :: 0 <= i < |others| ==> r[i + 2] == others[i]
  {
    [first, second] + others
  }

  /** Every argument list of at least two entries splits into parent, sequence and the rest,
      and `prependParam` is one-to-one. */
  lemma PrependParamRoundTrip<T>(args: seq<T>, parent: T, sequence: T, rest: seq<T>)
    ensures |args| >= 2 ==> PrependParam(args[0], args[1], args[2..]) == args
    ensures PrependParam(parent, sequence, rest) == args ==>
      args[0] == parent && args[1] == sequence && args[2..] == rest
  {
    if |args| >= 2 {
      assert [args[0], args[1]] + args[2..] == args;
    }
  }

  /** `mergeParsers` and `mergeStrings` lose nothing and add nothing: the merged array holds
      the first, the second and the others, each as often as given. */
  lemma MergeMembers<T>(first: T, second: T, others: seq<T>)
    ensures multiset(Merge(first, second, others)) == multiset{first, second} + multiset(others)
    ensures forall x :: x in Merge(first, second, others) <==> x == first || x == second || x in others
  {
    assert Merge(first, second, others) == [first, second] + others;
  }

  /** `Utils.mergeLiterals`: one `StringLiteral` parser per string, in order. */
  function MergeLiterals(literals: seq<string>): (r: seq<Rule>)
    ensures |r| == |literals|
    ensures forall i :: 0 <= i < |literals| ==> r[i] == StringLiteralP(literals[i])
  {
    if literals == [] then [] else [StringLiteralP(literals[0])] + MergeLiterals(literals[1..])
  }

  /** The literal parsers `mergeLiterals` builds report the `StringLiteral` class, and
      each one's underlying array has the exact length of its literal. */
  lemma MergeLiteralsTypes(literals: seq<string>)
    ensures Types(MergeLiterals(literals)) == seq(|literals|, _ => StringLiteralC)
    ensures forall i :: 0 <= i < |literals| ==> LiteralArray(literals[i]).min == |literals[i]|
  {
    var r := MergeLiterals(literals);
    assert forall i :: 0 <= i < |literals| ==> RuleType(r[i]) == StringLiteralC;
  }

  /** `Optional` and `Savior` are transparent to `getType`: wrapping a parser in any
      number of them never changes the class it reports. */
  lemma {:induction false} WrappersKeepType(r: Rule, depth: nat, sync: Option<Rule>, missing: bool)
    ensures RuleType(Wrap(r, depth, sync, missing)) == RuleType(r)
  {
    if depth > 0 {
      WrappersKeepType(r, depth - 1, sync, missing);
    }
  }

  /** `r` wrapped alternately in `Optional` and `Savior`, `depth` times. */
  function Wrap(r: Rule, depth: nat, sync: Option<Rule>, missing: bool): Rule {
    if depth == 0 then r
    else if depth % 2 == 0 then Opt(Wrap(r, depth - 1, sync, missing))
    else SaviorP(Wrap(r, depth - 1, sync, missing), sync, missing)
  }

  /** A rule tree without any `Savior`: parsing it never starts a recovery. */
  predicate Plain(r: Rule) {
    match r
    case CharP => true
    case EpsilonP => true
    case Opt(t) => Plain(t)
    case AnyP(ts) => forall i :: 0 <= i < |ts| ==> Plain(ts[i])
    case SaviorP(_, _, _) => false
    case Make(_, b) => PlainBody(b)
  }

  predicate PlainBody(b: Body) {
    match b
    case ChainB(ts) => forall i :: 0 <= i < |ts| ==> Plain(ts[i])
    case ArrayB(t, _, _) => Plain(t)
    case UnionB(ts) => forall i :: 0 <= i < |ts| ==> Plain(ts[i])
    case OptionsB(ts) => forall i :: 0 <= i < |ts| ==> Plain(ts[i])
    case LiteralB(_) => true
    case DefinedCharB(_) => true
    case CastB(t) => Plain(t)
    case RaiseB(_) => true
  }
}
