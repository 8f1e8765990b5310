/**
 * The token tree: leaf symbols (the `symbols` package) and composite tokens
 * (`CompositeToken`, `NodeToken`, `Root`), with the queries `Token` and
 * `CompositeToken` define on them. Tokens are immutable values here; the
 * Java parent references are recomputed from a token's position in a tree.
 */
module Nodes {
  import opened Wrappers
  import opened Kinds

  /** The leaf kinds: a character `Atom` (length 1) and the zero-width `EOF`, `Break` and `Epsilon`. */
  datatype SymKind = AtomS(c: char) | EofS | BreakS | EpsilonS

  /** A leaf symbol at an input offset, or a composite token of some class owning its children. */
  datatype Node =
    | Sym(kind: SymKind, offset: int)
    | Comp(cls: Cls, children: seq<Node>)

  /** Token values (`getValue`); `Null` is Java's `null`. */
  datatype Value = Null | Char(c: char) | Text(s: string)

  /** The errors a dummy token reports (`GenericFailedTokenError` subclasses), carrying the token. */
  datatype TokenError =
    | FailedTokenError(token: Node)
    | UnexpectedTokenError(token: Node)
    | MissingTokenError(token: Node)

  /** The class of a symbol kind. */
  function SymCls(k: SymKind): Cls {
    match k
    case AtomS(_) => AtomC
    case EofS => EofC
    case BreakS => BreakC
    case EpsilonS => EpsilonC
  }

  /** `getClass`: the concrete class of a token. */
  function ClsOf(n: Node): Cls {
    if n.Sym? then SymCls(n.kind) else n.cls
  }

  /** `instanceof` / `Class.isInstance`: a test on the concrete class. */
  predicate InstanceOf(n: Node, k: Cls) {
    IsA(ClsOf(n), k)
  }

  /** `getType`: the concrete class, except that a `Trim` reports the type of the token
      it wraps (`Trim.getType` returns `getToken().getType()`). `None` is the
      `ArrayIndexOutOfBoundsException` of a `Trim` without that token. */
  function TypeOf(n: Node): (r: Option<Cls>)
    ensures !InstanceOf(n, TrimC) ==> r == Some(ClsOf(n))
    decreases n, 1
  {
    match n
    case Sym(k, _) => Some(SymCls(k))
    case Comp(c, cs) =>
      if !IsA(c, TrimC) then Some(c)
      else if cs == [] then None
      else if Matches(cs[0], TrimmedC) then (if |cs| < 2 then None else TypeOf(cs[1]))
      else TypeOf(cs[0])
  }

  /** `matches(Class)`: a test on `getType`; a token whose type cannot be computed matches nothing. */
  predicate Matches(n: Node, k: Cls)
    decreases n, 2
  {
    match TypeOf(n)
    case Some(t) => IsA(t, k)
    case None => false
  }

  /** A character symbol: what `Char` and `DefinedChar` accept. */
  predicate IsGlyph(n: Node) {
    n.Sym? && n.kind.AtomS?
  }

  /** The fixed length of a symbol kind. */
  function SymLen(k: SymKind): nat {
    if k.AtomS? then 1 else 0
  }

  /** `getLength`: a symbol's fixed length, a composite's sum over its children. */
  function Length(n: Node): nat
    decreases n, 1
  {
    match n
    case Sym(k, _) => SymLen(k)
    case Comp(_, cs) => SumLen(cs)
  }

  /** Sum of the lengths of a list of tokens (`Sequence.getLength`). */
  function SumLen(cs: seq<Node>): nat
    decreases cs, 0
  {
    if cs == [] then 0 else Length(cs[0]) + SumLen(cs[1..])
  }

  /** `getRaw`: an `Atom`'s character, "" for zero-width symbols, the children's texts concatenated for a composite. */
  function Raw(n: Node): string
    decreases n, 1
  {
    match n
    case Sym(k, _) => if k.AtomS? then [k.c] else ""
    case Comp(_, cs) => RawOf(cs)
  }

  /** Concatenation of the raw texts of a list of tokens (`Sequence.getRaw`). */
  function RawOf(cs: seq<Node>): string
    decreases cs, 0
  {
    if cs == [] then "" else Raw(cs[0]) + RawOf(cs[1..])
  }

  /** `getIndex`: a symbol's offset; a composite's first child's offset. `None` is the
      `IndexOutOfBoundsException` Java raises for a composite without children. */
  function Index(n: Node): Option<int>
    decreases n
  {
    match n
    case Sym(_, o) => Some(o)
    case Comp(_, cs) => if cs == [] then None else Index(cs[0])
  }

  lemma {:induction false} SumLenAppend(a: seq<Node>, b: seq<Node>)
    ensures SumLen(a + b) == SumLen(a) + SumLen(b)
  {
    if a == [] {
      assert a + b == b;
    } else {
      assert (a + b)[1..] == a[1..] + b;
      SumLenAppend(a[1..], b);
    }
  }

  lemma {:induction false} RawOfAppend(a: seq<Node>, b: seq<Node>)
    ensures RawOf(a + b) == RawOf(a) + RawOf(b)
  {
    if a == [] {
      assert a + b == b;
    } else {
      assert (a + b)[1..] == a[1..] + b;
      RawOfAppend(a[1..], b);
    }
  }

  /** The raw text of every token has exactly as many characters as the token is long. */
  lemma {:induction false} RawLength(n: Node)
    ensures |Raw(n)| == Length(n)
    decreases n, 1
  {
    match n
    case Sym(k, _) =>
    case Comp(_, cs) => RawOfLength(cs);
  }

  lemma {:induction false} RawOfLength(cs: seq<Node>)
    ensures |RawOf(cs)| == SumLen(cs)
    decreases cs, 0
  {
    if cs != [] {
      RawLength(cs[0]);
      RawOfLength(cs[1..]);
    }
  }

  /** A composite's length is additive over any split of its children. */
  lemma CompositeLengthAdditive(c: Cls, a: seq<Node>, b: seq<Node>)
    ensures Length(Comp(c, a + b)) == Length(Comp(c, a)) + Length(Comp(c, b))
    ensures Raw(Comp(c, a + b)) == Raw(Comp(c, a)) + Raw(Comp(c, b))
  {
    SumLenAppend(a, b);
    RawOfAppend(a, b);
  }

  /** A composite's offset is its first child's; down the first-child spine it is the first symbol's offset. */
  lemma {:induction false} CompositeIndexIsFirstChild(c: Cls, cs: seq<Node>)
    requires cs != []
    ensures Index(Comp(c, cs)) == Index(cs[0])
    ensures Index(Comp(c, cs)).Some? <==> FirstLeaf(cs[0]).Some?
    ensures FirstLeaf(cs[0]).Some? ==> Index(Comp(c, cs)) == Some(FirstLeaf(cs[0]).value.offset)
  {
    FirstLeafIndex(cs[0]);
  }

  /** The symbol reached by always descending into the first child. */
  function FirstLeaf(n: Node): (r: Option<Node>)
    ensures r.Some? ==> r.value.Sym?
    decreases n
  {
    match n
    case Sym(_, _) => Some(n)
    case Comp(_, cs) => if cs == [] then None else FirstLeaf(cs[0])
  }

  lemma {:induction false} FirstLeafIndex(n: Node)
    ensures Index(n).Some? <==> FirstLeaf(n).Some?
    ensures FirstLeaf(n).Some? ==> Index(n) == Some(FirstLeaf(n).value.offset)
    decreases n
  {
    match n
    case Sym(_, _) =>
    case Comp(_, cs) => if cs != [] { FirstLeafIndex(cs[0]); }
  }

  // ----- values -----

  /** `Trim.getToken`: the child after the left padding, if there is one. */
  function TrimToken(cs: seq<Node>): Option<Node> {
    if cs == [] then None
    else if Matches(cs[0], TrimmedC) then (if |cs| < 2 then None else Some(cs[1]))
    else Some(cs[0])
  }

  /** A `Trim` reports exactly the type of the token `getToken` picks, so it matches what that
      token matches, whether or not the left padding was found. */
  lemma TrimMatchesItsToken(c: Cls, pad: seq<Node>, x: Node, rest: seq<Node>, k: Cls)
    requires IsA(c, TrimC)
    ensures TypeOf(Comp(c, [Comp(TrimmedC, pad), x] + rest)) == TypeOf(x)
    ensures !Matches(x, TrimmedC) ==> (Matches(Comp(c, [x] + rest), k) <==> Matches(x, k))
    ensures TrimToken([Comp(TrimmedC, pad), x] + rest) == Some(x)
  {
    assert ([Comp(TrimmedC, pad), x] + rest)[1] == x;
    assert ([x] + rest)[0] == x;
    assert Matches(Comp(TrimmedC, pad), TrimmedC);
  }

  /** A `Trim`'s value is its token's value, whether or not the left padding was found. */
  lemma TrimValueIsTokenValue(c: Cls, pad: seq<Node>, x: Node, rest: seq<Node>, user: Node -> Value)
    requires IsA(c, TrimC)
    ensures GetValue(Comp(c, [Comp(TrimmedC, pad), x] + rest), user) == GetValue(x, user)
    ensures !Matches(x, TrimmedC) ==> GetValue(Comp(c, [x] + rest), user) == GetValue(x, user)
  {
    TrimIsNoOtherValueClass(c);
    TrimMatchesItsToken(c, pad, x, rest, TrimmedC);
    var padded := [Comp(TrimmedC, pad), x] + rest;
    assert GetValue(Comp(c, padded), user) == GetValue(x, user);
    if !Matches(x, TrimmedC) {
      assert ([x] + rest)[0] == x;
      assert TrimToken([x] + rest) == Some(x);
    }
  }

  /** The join of a `CharArray`'s values, each shown as `String.valueOf` shows it. */
  function Show(v: Value): string {
    match v
    case Null => "null"
    case Char(c) => [c]
    case Text(s) => s
  }

  /** `getValue`. The core defines it for symbols (their stored value), `DefinedChar`
      (its character), `StringLiteral` (its literal, which equals the join of its
      characters once parsed), `Trimmed` and the dummies (null), and `Union`/`Trim`
      (their chosen child's value). For every other class `getValue` is written
      by the grammar, given here as `user`. `None` is an out-of-range child access. */
  function GetValue(n: Node, user: Node -> Value): Option<Value>
    decreases n, 2
  {
    match n
    case Sym(k, _) => Some(if k.AtomS? then Char(k.c) else Null)
    case Comp(c, cs) =>
      if IsA(c, DefinedCharC) then (if cs == [] then None else GetValue(cs[0], user))
      else if IsA(c, StringLiteralC) then
        (match Join(cs, user) case Some(s) => Some(Text(s)) case None => None)
      else if IsA(c, TrimmedC) || IsA(c, DummyC) then Some(Null)
      else if IsA(c, TrimC) then
        (match TrimToken(cs) case Some(t) => GetValue(t, user) case None => None)
      else if IsA(c, UnionC) then (if cs == [] then None else GetValue(cs[0], user))
      else Some(user(n))
  }

  /** `Array.getValues` / `Chain.getValues`: the values of the children that are not `Trimmed` padding. */
  function Values(cs: seq<Node>, user: Node -> Value): Option<seq<Value>>
    decreases cs, 1
  {
    if cs == [] then Some([])
    else if Matches(cs[0], TrimmedC) then Values(cs[1..], user)
    else match (GetValue(cs[0], user), Values(cs[1..], user))
      case (Some(v), Some(vs)) => Some([v] + vs)
      case _ => None
  }

  /** `CharArray.getJoin`: the non-padding children's values, shown and concatenated. */
  function Join(cs: seq<Node>, user: Node -> Value): Option<string>
    decreases cs, 0
  {
    if cs == [] then Some("")
    else if Matches(cs[0], TrimmedC) then Join(cs[1..], user)
    else match (GetValue(cs[0], user), Join(cs[1..], user))
      case (Some(v), Some(s)) => Some(Show(v) + s)
      case _ => None
  }

  /** The characters of atoms that are not Trimmed, as `getJoin` sees them. */
  lemma {:induction false} JoinOfAtoms(cs: seq<Node>, user: Node -> Value)
    requires forall i :: 0 <= i < |cs| ==> IsGlyph(cs[i])
    ensures Join(cs, user) == Some(RawOf(cs))
  {
    if cs != [] {
      JoinOfAtoms(cs[1..], user);
    }
  }

  /** `Token.equals(IToken)`: same class compares values, otherwise raw texts are compared. */
  predicate Equals(a: Node, b: Node, user: Node -> Value) {
    if ClsOf(a) == ClsOf(b) then GetValue(a, user) == GetValue(b, user) else Raw(a) == Raw(b)
  }

  /** `Token.equals(String)`. */
  predicate EqualsText(n: Node, s: string) {
    Raw(n) == s
  }

  /** Token equality is symmetric, and two tokens with the same raw text are equal unless
      they share a class and differ in value; two atoms are equal exactly when their characters are. */
  lemma EqualsProperties(a: Node, b: Node, user: Node -> Value)
    ensures Equals(a, b, user) <==> Equals(b, a, user)
    ensures ClsOf(a) != ClsOf(b) ==> (Equals(a, b, user) <==> EqualsText(a, Raw(b)))
    ensures IsGlyph(a) && IsGlyph(b) ==> (Equals(a, b, user) <==> a.kind.c == b.kind.c)
  {
  }

  /** Two `DefinedChar` tokens holding the same character are equal whatever their offsets. */
  lemma DefinedCharEquality(c: char, i: int, j: int, user: Node -> Value)
    ensures Equals(Comp(DefinedCharC, [Sym(AtomS(c), i)]), Comp(DefinedCharC, [Sym(AtomS(c), j)]), user)
    ensures !Equals(Comp(DefinedCharC, [Sym(AtomS(c), i)]), Comp(DefinedCharC, [Sym(AtomS(if c == 'a' then 'b' else 'a'), i)]), user)
  {
    var d := if c == 'a' then 'b' else 'a';
    assert GetValue(Comp(DefinedCharC, [Sym(AtomS(c), i)]), user) == Some(Char(c));
    assert GetValue(Comp(DefinedCharC, [Sym(AtomS(d), i)]), user) == Some(Char(d));
    assert Char(c) != Char(d);
  }

  // ----- errors -----

  /** A dummy token class of the recovery package. */
  predicate IsDummy(c: Cls) {
    IsA(c, FailedC) || IsA(c, UnknownC) || IsA(c, UnexpectedC) || IsA(c, MissingC)
  }

  /** `getError` of a dummy token. */
  function ErrorOf(n: Node): TokenError {
    if InstanceOf(n, UnexpectedC) then UnexpectedTokenError(n)
    else if InstanceOf(n, MissingC) then MissingTokenError(n)
    else FailedTokenError(n)
  }

  /** `getErrors`: a dummy reports its own error (a `MissingToken` none); any other
      composite collects, in child order, the errors of its composite children. */
  function Errors(n: Node): seq<TokenError>
    decreases n, 1
  {
    match n
    case Sym(_, _) => []
    case Comp(c, cs) =>
      if IsA(c, MissingC) then []
      else if IsDummy(c) then [ErrorOf(n)]
      else ErrorsOf(cs)
  }

  function ErrorsOf(cs: seq<Node>): seq<TokenError>
    decreases cs, 0
  {
    if cs == [] then [] else Errors(cs[0]) + ErrorsOf(cs[1..])
  }

  /** A token with no dummy anywhere below it reports no error. */
  predicate DummyFree(n: Node)
    decreases n
  {
    match n
    case Sym(_, _) => true
    case Comp(c, cs) => !IsDummy(c) && forall i :: 0 <= i < |cs| ==> DummyFree(cs[i])
  }

  /** Every reported error belongs to a dummy of the tree, and a tree without dummies reports nothing. */
  lemma {:induction false} ErrorsComeFromDummies(n: Node)
    ensures DummyFree(n) ==> Errors(n) == []
    ensures forall i :: 0 <= i < |Errors(n)| ==> IsDummy(ClsOf(Errors(n)[i].token))
    decreases n, 1
  {
    match n
    case Sym(_, _) =>
    case Comp(c, cs) =>
      if !IsDummy(c) {
        ErrorsOfComeFromDummies(cs);
      }
  }

  lemma {:induction false} ErrorsOfComeFromDummies(cs: seq<Node>)
    ensures (forall i :: 0 <= i < |cs| ==> DummyFree(cs[i])) ==> ErrorsOf(cs) == []
    ensures forall i :: 0 <= i < |ErrorsOf(cs)| ==> IsDummy(ClsOf(ErrorsOf(cs)[i].token))
    decreases cs, 0
  {
    if cs != [] {
      ErrorsComeFromDummies(cs[0]);
      ErrorsOfComeFromDummies(cs[1..]);
    }
  }

  /** Errors are collected in child order: splitting the children splits the list. */
  lemma {:induction false} ErrorsOfAppend(a: seq<Node>, b: seq<Node>)
    ensures ErrorsOf(a + b) == ErrorsOf(a) + ErrorsOf(b)
  {
    if a == [] {
      assert a + b == b;
    } else {
      assert (a + b)[1..] == a[1..] + b;
      ErrorsOfAppend(a[1..], b);
    }
  }
}
