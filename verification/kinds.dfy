/**
 * The token class hierarchy. Every token in the engine is an instance of a
 * Java class; `Token.matches(Class)` is a subtype test (`isAssignableFrom`).
 * A class is modelled by its name and its chain of superclasses, so grammar
 * classes (a `Word` that extends `CharArray`, say) sit beside the core ones.
 */
module Kinds {

  /** `Top` is the root of the hierarchy; `Ext(name, sup)` is a class extending `sup`. */
  datatype Cls = Top | Ext(name: string, sup: Cls)

  /** `IsA(c, k)`: an instance of class `c` matches class `k` (k is c or one of its superclasses). */
  predicate IsA(c: Cls, k: Cls)
    decreases c
  {
    c == k || (c.Ext? && IsA(c.sup, k))
  }

  /** `matches(Iterable)`: some class of the list matches. */
  predicate IsAny(c: Cls, ks: seq<Cls>) {
    exists i :: 0 <= i < |ks| && IsA(c, ks[i])
  }

  /** Number of classes above `c`; used to show the hierarchy has no cycles. */
  function Height(c: Cls): nat {
    if c.Top? then 0 else 1 + Height(c.sup)
  }

  const TokenC: Cls := Ext("Token", Top)
  const SymbolC: Cls := Ext("Symbol", TokenC)
  const AtomC: Cls := Ext("Atom", SymbolC)
  const EofC: Cls := Ext("EOF", SymbolC)
  const BreakC: Cls := Ext("Break", EofC)
  const EpsilonC: Cls := Ext("Epsilon", SymbolC)
  const CompositeC: Cls := Ext("CompositeToken", TokenC)
  const RootC: Cls := Ext("Root", CompositeC)
  const NodeTokenC: Cls := Ext("NodeToken", CompositeC)
  const ArrayC: Cls := Ext("Array", NodeTokenC)
  const ListC: Cls := Ext("List", ArrayC)
  const CharArrayC: Cls := Ext("CharArray", ArrayC)
  const LiteralC: Cls := Ext("Literal", CharArrayC)
  const StringLiteralC: Cls := Ext("StringLiteral", LiteralC)
  const TrimmedC: Cls := Ext("Trimmed", CharArrayC)
  const ChainC: Cls := Ext("Chain", NodeTokenC)
  const TrimC: Cls := Ext("Trim", ChainC)
  const LeftTrimC: Cls := Ext("LeftTrim", TrimC)
  const RightTrimC: Cls := Ext("RightTrim", TrimC)
  const UnionC: Cls := Ext("Union", NodeTokenC)
  const OptionsChainC: Cls := Ext("OptionsChain", NodeTokenC)
  const DefinedCharC: Cls := Ext("DefinedChar", NodeTokenC)
  const CastC: Cls := Ext("Cast", NodeTokenC)
  const DummyC: Cls := Ext("GenericDummyToken", NodeTokenC)
  const DummyTargetC: Cls := Ext("GenericDummyTargetToken", DummyC)
  const FailedC: Cls := Ext("FailedToken", DummyTargetC)
  const UnknownC: Cls := Ext("UnknownToken", DummyTargetC)
  const UnexpectedC: Cls := Ext("UnexpectedToken", DummyC)
  const MissingC: Cls := Ext("MissingToken", DummyC)

  /** A class matches only classes at or above it, so its height bounds theirs. */
  lemma {:induction false} IsAHeight(c: Cls, k: Cls)
    requires IsA(c, k)
    ensures Height(k) <= Height(c)
    ensures Height(k) == Height(c) ==> c == k
    decreases c
  {
    if c != k {
      IsAHeight(c.sup, k);
    }
  }

  /** Subtyping is transitive: a subclass of a subclass matches the outer class. */
  lemma {:induction false} IsATransitive(a: Cls, b: Cls, c: Cls)
    requires IsA(a, b) && IsA(b, c)
    ensures IsA(a, c)
    decreases a
  {
    if a != b {
      IsATransitive(a.sup, b, c);
    }
  }

  /** Single inheritance: two classes a token matches are themselves related. */
  lemma {:induction false} IsALinear(c: Cls, a: Cls, b: Cls)
    requires IsA(c, a) && IsA(c, b)
    ensures IsA(a, b) || IsA(b, a)
    decreases c
  {
    if c != a && c != b {
      IsALinear(c.sup, a, b);
    }
  }

  /** Subtyping is antisymmetric: two classes that match each other are the same class. */
  lemma IsAAntisymmetric(a: Cls, b: Cls)
    requires IsA(a, b) && IsA(b, a)
    ensures a == b
  {
    IsAHeight(a, b);
    IsAHeight(b, a);
  }

  /** A `Trim` subclass is none of the classes whose `getValue` the core fixes before `Trim`'s. */
  lemma TrimIsNoOtherValueClass(c: Cls)
    requires IsA(c, TrimC)
    ensures !IsA(c, DefinedCharC) && !IsA(c, StringLiteralC) && !IsA(c, TrimmedC) && !IsA(c, DummyC)
  {
    if IsA(c, DefinedCharC) { IsALinear(c, TrimC, DefinedCharC); }
    if IsA(c, StringLiteralC) { IsALinear(c, TrimC, StringLiteralC); }
    if IsA(c, TrimmedC) { IsALinear(c, TrimC, TrimmedC); }
    if IsA(c, DummyC) { IsALinear(c, TrimC, DummyC); }
  }

  /** A `Break` is an `EOF` symbol, so a current `Break` ends the input like `EOF` does. */
  lemma BreakIsEof()
    ensures IsA(BreakC, EofC) && IsA(BreakC, SymbolC)
    ensures !IsA(EofC, BreakC) && !IsA(AtomC, EofC) && !IsA(EpsilonC, EofC)
  {
  }
}
