/**
 * `TokenStream`: an ordered list of tokens with filters, and the `Utils` token
 * predicates that the composite tokens hand to Java streams.
 */
module Streams {
  import opened Wrappers
  import opened Kinds
  import opened Nodes

  /** `stream().filter(p)`: the tokens for which `p` holds, in order. */
  function KeepIf(ts: seq<Node>, p: Node -> bool): (r: seq<Node>)
    ensures |r| <= |ts|
    ensures forall x :: x in r <==> x in ts && p(x)
  {
    if ts == [] then []
    else (if p(ts[0]) then [ts[0]] else []) + KeepIf(ts[1..], p)
  }

  /** Filtering distributes over concatenation: the kept tokens stay in their order. */
  lemma {:induction false} KeepIfAppend(a: seq<Node>, b: seq<Node>, p: Node -> bool)
    ensures KeepIf(a + b, p) == KeepIf(a, p) + KeepIf(b, p)
  {
    if a != [] {
      assert (a + b)[0] == a[0];
      assert (a + b)[1..] == a[1..] + b;
      KeepIfAppend(a[1..], b, p);
    } else {
      assert a + b == b;
    }
  }

  /** Filtering keeps a list whose tokens all pass, and filtering twice is filtering once. */
  lemma {:induction false} KeepIfAllPass(ts: seq<Node>, p: Node -> bool)
    requires forall i :: 0 <= i < |ts| ==> p(ts[i])
    ensures KeepIf(ts, p) == ts
  {
    if ts != [] {
      KeepIfAllPass(ts[1..], p);
    }
  }

  lemma KeepIfIdempotent(ts: seq<Node>, p: Node -> bool)
    ensures KeepIf(KeepIf(ts, p), p) == KeepIf(ts, p)
  {
    var r := KeepIf(ts, p);
    assert forall i :: 0 <= i < |r| ==> r[i] in r;
    KeepIfAllPass(r, p);
  }

  // ----- TokenStream -----

  /** `instanceof IGenericFailedToken`. Only the legacy recovery classes (`core/MissingToken`,
      `core/UnknownToken`, `core/UnexpectedToken`) implement that interface. The dummies of
      the `dummy` package implement `IDummyToken`, which extends `ICompositeToken` only, so
      no token class of this model is one. */
  predicate IsFailed(n: Node) {
    false
  }

  /** `curate`: the tokens that are not `IGenericFailedToken`s, in order. */
  function Curate(ts: seq<Node>): (r: seq<Node>)
    ensures forall x :: x in r <==> x in ts && !IsFailed(x)
  {
    KeepIf(ts, (n: Node) => !IsFailed(n))
  }

  /** `curate` keeps every token of this model, recovered dummies included. */
  lemma CurateKeepsAll(ts: seq<Node>)
    ensures Curate(ts) == ts
  {
    KeepIfAllPass(ts, (n: Node) => !IsFailed(n));
  }

  /** Curating twice is curating once. */
  lemma CurateIdempotent(ts: seq<Node>)
    ensures Curate(Curate(ts)) == Curate(ts)
  {
    KeepIfIdempotent(ts, (n: Node) => !IsFailed(n));
  }

  /** `filter(type)`: the tokens that match `k`, in order. */
  function Filter(ts: seq<Node>, k: Cls): (r: seq<Node>)
    ensures forall x :: x in r <==> x in ts && Matches(x, k)
  {
    KeepIf(ts, (n: Node) => Matches(n, k))
  }

  /** A token matches one of several classes (`matches` over a list of classes). */
  predicate MatchesAny(n: Node, ks: seq<Cls>) {
    exists j :: 0 <= j < |ks| && Matches(n, ks[j])
  }

  /** `filter(type, types...)`: the tokens that match one of `ks`, in order. */
  function FilterAny(ts: seq<Node>, ks: seq<Cls>): (r: seq<Node>)
    ensures forall x :: x in r <==> x in ts && MatchesAny(x, ks)
  {
    KeepIf(ts, (n: Node) => MatchesAny(n, ks))
  }

  /** Filtering on a single class is filtering on a list holding only that class. */
  lemma FilterAnySingle(ts: seq<Node>, k: Cls)
    ensures FilterAny(ts, [k]) == Filter(ts, k)
  {
    forall n ensures MatchesAny(n, [k]) == Matches(n, k) {
      assert [k][0] == k;
    }
    KeepIfSamePredicate(ts, (n: Node) => MatchesAny(n, [k]), (n: Node) => Matches(n, k));
  }

  /** Two predicates that agree everywhere keep the same tokens. */
  lemma {:induction false} KeepIfSamePredicate(ts: seq<Node>, p: Node -> bool, q: Node -> bool)
    requires forall n :: p(n) == q(n)
    ensures KeepIf(ts, p) == KeepIf(ts, q)
  {
    if ts != [] {
      KeepIfSamePredicate(ts[1..], p, q);
    }
  }

  /** A matching subclass token passes a filter on its superclass: filtering on a class
      keeps at least what filtering on a subclass keeps. */
  lemma FilterWidens(ts: seq<Node>, sub: Cls, sup: Cls)
    requires IsA(sub, sup)
    ensures forall x :: x in Filter(ts, sub) ==> x in Filter(ts, sup)
  {
    forall x | x in Filter(ts, sub) ensures x in Filter(ts, sup) {
      var t := TypeOf(x).value;
      IsATransitive(t, sub, sup);
    }
  }

  /** `flatMap(f)`: the lists `f` gives for each token, concatenated in token order. */
  function FlatMap<O>(ts: seq<Node>, f: Node -> seq<O>): seq<O> {
    if ts == [] then [] else f(ts[0]) + FlatMap(ts[1..], f)
  }

  /** Flat-mapping distributes over concatenation. */
  lemma {:induction false} FlatMapAppend<O>(a: seq<Node>, b: seq<Node>, f: Node -> seq<O>)
    ensures FlatMap(a + b, f) == FlatMap(a, f) + FlatMap(b, f)
  {
    if a != [] {
      assert (a + b)[0] == a[0];
      assert (a + b)[1..] == a[1..] + b;
      FlatMapAppend(a[1..], b, f);
    } else {
      assert a + b == b;
    }
  }

  /** Flat-mapping each token to itself gives the tokens back. */
  lemma {:induction false} FlatMapSingletons(ts: seq<Node>)
    ensures FlatMap(ts, (n: Node) => [n]) == ts
  {
    if ts != [] {
      FlatMapSingletons(ts[1..]);
    }
  }

  /** The non-null values a value function `f` gives the tokens, in order; `None` when
      `f` has no value for one of them. */
  function CollectValues(ts: seq<Node>, f: Node -> Option<Value>): (r: Option<seq<Value>>)
    ensures r.Some? <==> forall i :: 0 <= i < |ts| ==> f(ts[i]).Some?
    ensures r.Some? ==> |r.value| <= |ts|
  {
    if ts == [] then Some([])
    else
      var v := f(ts[0]);
      var rest := CollectValues(ts[1..], f);
      if v.None? || rest.None? then None
      else Some(Nonnull(v.value) + rest.value)
  }

  /** `getValues`: the values of the tokens, leaving out the null ones; `None` when a
      token's value cannot be computed. */
  function GetValues(ts: seq<Node>, user: Node -> Value): (r: Option<seq<Value>>)
    ensures r.Some? <==> forall i :: 0 <= i < |ts| ==> GetValue(ts[i], user).Some?
    ensures r.Some? ==> |r.value| <= |ts|
  {
    CollectValues(ts, (n: Node) => GetValue(n, user))
  }

  /** Collected values never include null. */
  lemma {:induction false} CollectDropsNulls(ts: seq<Node>, f: Node -> Option<Value>)
    requires CollectValues(ts, f).Some?
    ensures forall v :: v in CollectValues(ts, f).value ==> v != Null
  {
    if ts != [] {
      CollectDropsNulls(ts[1..], f);
    }
  }

  /** A value as the list `getValues` adds for it: nothing for null. */
  function Nonnull(v: Value): (r: seq<Value>)
    ensures |r| <= 1
    ensures v in r <==> v != Null
  {
    if v == Null then [] else [v]
  }

  /** Collecting over a concatenation concatenates the collected values. */
  lemma {:induction false} CollectAppend(a: seq<Node>, b: seq<Node>, f: Node -> Option<Value>)
    requires CollectValues(a, f).Some? && CollectValues(b, f).Some?
    ensures CollectValues(a + b, f) == Some(CollectValues(a, f).value + CollectValues(b, f).value)
  {
    if a == [] {
      var rb := CollectValues(b, f).value;
      assert a + b == b;
      assert CollectValues(a, f) == Some([]);
      assert [] + rb == rb;
    } else {
      assert (a + b)[0] == a[0];
      assert (a + b)[1..] == a[1..] + b;
      CollectAppend(a[1..], b, f);
      var h := Nonnull(f(a[0]).value);
      var ra := CollectValues(a[1..], f).value;
      var rb := CollectValues(b, f).value;
      assert CollectValues(a, f) == Some(h + ra);
      assert CollectValues(a + b, f) == Some(h + (ra + rb));
      assert h + (ra + rb) == (h + ra) + rb;
    }
  }

  /** `getValues` never holds a null value. */
  lemma GetValuesDropsNulls(ts: seq<Node>, user: Node -> Value)
    requires GetValues(ts, user).Some?
    ensures forall v :: v in GetValues(ts, user).value ==> v != Null
  {
    CollectDropsNulls(ts, (n: Node) => GetValue(n, user));
  }

  /** `getValues` leaves out exactly the null values, in order: the values of a
      concatenation are the concatenated values. */
  lemma GetValuesAppend(a: seq<Node>, b: seq<Node>, user: Node -> Value)
    requires GetValues(a, user).Some? && GetValues(b, user).Some?
    ensures GetValues(a + b, user) == Some(GetValues(a, user).value + GetValues(b, user).value)
  {
    CollectAppend(a, b, (n: Node) => GetValue(n, user));
  }

  /** A single token contributes its value exactly when that value is not null. */
  lemma GetValuesSingle(n: Node, user: Node -> Value)
    requires GetValue(n, user).Some?
    ensures GetValues([n], user) == Some(if GetValue(n, user).value == Null then [] else [GetValue(n, user).value])
  {
    var f := (m: Node) => GetValue(m, user);
    assert [n][1..] == [];
    assert CollectValues([n][1..], f) == Some([]);
    var v := GetValue(n, user).value;
    var head: seq<Value> := if v == Null then [] else [v];
    assert head + [] == head;
  }

  // ----- Utils predicates -----

  /** `Utils.filterTrims`: passes every token but `Trimmed` padding. */
  predicate NotTrimmed(n: Node) {
    !Matches(n, TrimmedC)
  }

  /** `s` occurs in `text` (`String.contains`). */
  predicate Contains(text: string, s: string) {
    exists i :: 0 <= i <= |text| - |s| && OccursAt(text, s, i)
  }

  predicate OccursAt(text: string, s: string, i: int) {
    0 <= i <= |text| - |s| && text[i..i + |s|] == s
  }

  /** A one-character string occurs in a text exactly when its character does. */
  lemma ContainsChar(text: string, c: char)
    ensures Contains(text, [c]) <==> c in text
  {
    if c in text {
      var i :| 0 <= i < |text| && text[i] == c;
      assert OccursAt(text, [c], i);
    }
    if Contains(text, [c]) {
      var i :| 0 <= i <= |text| - 1 && OccursAt(text, [c], i);
      assert text[i..i + 1] == [c];
      assert text[i] == c;
    }
  }

  /** `Utils.filterChars(blacklist)`: rejects a `DefinedChar` whose value, as a string,
      occurs in the blacklist. `None` is the exception of a `DefinedChar` whose value
      is null or cannot be computed. */
  function FilterChars(blacklist: string, n: Node, user: Node -> Value): (r: Option<bool>)
    ensures !Matches(n, DefinedCharC) ==> r == Some(true)
    ensures r == Some(false) ==> Matches(n, DefinedCharC)
  {
    if !Matches(n, DefinedCharC) then Some(true)
    else match GetValue(n, user)
      case Some(v) => if v == Null then None else Some(!Contains(blacklist, Show(v)))
      case None => None
  }

  /** `filterChars` rejects exactly the `DefinedChar` tokens holding a blacklisted character. */
  lemma FilterCharsOnDefinedChar(blacklist: string, c: char, i: int, user: Node -> Value)
    ensures FilterChars(blacklist, Comp(DefinedCharC, [Sym(AtomS(c), i)]), user) == Some(c !in blacklist)
  {
    var n := Comp(DefinedCharC, [Sym(AtomS(c), i)]);
    assert TypeOf(n) == Some(DefinedCharC);
    assert GetValue(n, user) == Some(Char(c));
    ContainsChar(blacklist, c);
  }

  /** `Utils.filterTokens(targets)`: passes the tokens that match one of the targets. */
  predicate FilterTokens(ks: seq<Cls>, n: Node) {
    MatchesAny(n, ks)
  }

  /** Streaming through `filterTokens` is `TokenStream.filter` over the same classes. */
  lemma FilterTokensIsFilter(ts: seq<Node>, ks: seq<Cls>)
    ensures KeepIf(ts, (n: Node) => FilterTokens(ks, n)) == FilterAny(ts, ks)
  {
    KeepIfSamePredicate(ts, (n: Node) => FilterTokens(ks, n), (n: Node) => MatchesAny(n, ks));
  }

  /** The values an `Array` or a `Chain` reports are those of its children that pass
      `filterTrims`, in order. */
  lemma {:induction false} ValuesSkipPadding(cs: seq<Node>, user: Node -> Value)
    ensures Values(cs, user) == Values(KeepIf(cs, NotTrimmed), user)
  {
    if cs != [] {
      ValuesSkipPadding(cs[1..], user);
      var k := KeepIf(cs[1..], NotTrimmed);
      if NotTrimmed(cs[0]) {
        assert KeepIf(cs, NotTrimmed) == [cs[0]] + k;
        assert ([cs[0]] + k)[0] == cs[0];
        assert ([cs[0]] + k)[1..] == k;
      } else {
        assert KeepIf(cs, NotTrimmed) == k;
      }
    }
  }
}
