/**
 * What each remaining parser of the library yields: `DefinedChar`, `Optional`,
 * `Any`, `Cast`, and a composite token whose grammar code throws an interrupter.
 */
module CombinatorFacts {
  import opened Wrappers
  import opened Kinds
  import opened Nodes
  import opened Sequences
  import opened Grammar
  import opened Errors
  import opened Engine
  import opened EngineFacts

  // ----- DefinedChar -----

  /** A `DefinedChar` accepts exactly a character symbol from its whitelist at the start
      of its sequence, and then holds that symbol alone; a symbol that is not a character
      and a character outside the whitelist are rejected with their own errors. */
  lemma DefinedCharSpec(fuel: nat, wl: string, s: Sequence)
    requires s.pointer == 0
    ensures var o := FactoryParse(fuel, DefinedCharC, DefinedCharB(wl), s);
      (o.Ok? <==> Size(s) > 0 && IsGlyph(s.content[0]) && s.content[0].kind.c in wl)
      && (o.Ok? ==> o.node == Comp(DefinedCharC, [s.content[0]]))
      && (Size(s) > 0 && !IsGlyph(s.content[0]) ==> o == Fail(Parse(ExpectedGlyphError(0, s.content[0]))))
      && (Size(s) > 0 && IsGlyph(s.content[0]) && s.content[0].kind.c !in wl ==>
            o == Fail(Parse(InvalidCharError(0, wl, s.content[0].kind.c))))
  {
    assert Construct(DefinedCharB(wl)).None?;
    assert RunBody(fuel, DefinedCharB(wl), s) == DefinedCharBody(wl, s);
    if Size(s) > 0 {
      assert Current(s) == Some(s.content[0]);
      ClearKeepsPrefix(Next(s), 0);
      assert s.content[..1] == [s.content[0]];
    }
  }

  // ----- Optional -----

  /** Without recovery, `Optional` returns what its target returns at the cursor, except
      that a rejection becomes an `OptionalNotFound` wrapping it: an optional never rejects. */
  lemma OptionalSpec(fuel: nat, t: Rule, s: Sequence)
    requires Plain(t)
    ensures var o := OptionalParse(fuel, t, s);
      var q := TryParse(fuel, s, t);
      (q.Ok? ==> o == q)
      && (q.Fail? && q.fault.Parse? && q.fault.e.ParserError? ==> o == Fail(Parse(MkOptionalNotFound(q.fault.e, t))))
      && (o.Fail? && o.fault.Parse? ==> o.fault.e.OptionalNotFound?)
  {
    PlainSeqParse(fuel, s, t);
    SeqParseWraps(fuel, s, t);
  }

  // ----- Any -----

  /** `Any` yields the token of the first alternative whose probe and parse succeed:
      whatever it returns is what one of its alternatives returns on the same sequence. */
  lemma {:induction false} AnyPicksAnAlternative(fuel: nat, all: seq<Rule>, rest: seq<Rule>, s: Sequence, errs: seq<Error>)
    ensures var o := AnyLoop(fuel, all, rest, s, errs);
      o.Ok? ==> exists i :: 0 <= i < |rest| && TryParse(fuel, s, rest[i]).Ok? && Run(fuel, rest[i], s) == o
    decreases |rest|
  {
    if rest != [] {
      var t := rest[0];
      var q := TryParse(fuel, s, t);
      var o := if q.Ok? then Run(fuel, t, s) else q;
      if !o.Ok? && o.fault.Parse? {
        var errs' := if o.fault.e.OptionalNotFound? then errs else errs + [MkParserError(o.fault.e, t)];
        assert AnyLoop(fuel, all, rest, s, errs) == AnyLoop(fuel, all, rest[1..], s, errs');
        AnyPicksAnAlternative(fuel, all, rest[1..], s, errs');
        var r := AnyLoop(fuel, all, rest[1..], s, errs');
        if r.Ok? {
          var i :| 0 <= i < |rest[1..]| && TryParse(fuel, s, rest[1..][i]).Ok? && Run(fuel, rest[1..][i], s) == r;
          assert rest[1..][i] == rest[i + 1];
        }
      }
    }
  }

  /** What `Any` makes of one alternative: its parse when its probe succeeds, else the probe's failure. */
  function AltOutcome(fuel: nat, s: Sequence, t: Rule): Outcome {
    var q := TryParse(fuel, s, t);
    if q.Ok? then Run(fuel, t, s) else q
  }

  /** The error `Any` records for a rejected alternative; a missed optional records none. */
  function AltErrors(e: Error, t: Rule): seq<Error> {
    if e.OptionalNotFound? then [] else [MkParserError(e, t)]
  }

  /** An alternative of `Any` fails: its probe fails, or its parse after a successful probe does. */
  predicate AltFails(fuel: nat, s: Sequence, t: Rule) {
    AltOutcome(fuel, s, t).Fail?
  }

  /** One turn of `Any`'s loop: a success or a fault other than a parse error ends it,
      a parse error is recorded and the next alternative tried. */
  lemma AnyStep(fuel: nat, all: seq<Rule>, rest: seq<Rule>, s: Sequence, errs: seq<Error>)
    requires rest != []
    ensures var o := AltOutcome(fuel, s, rest[0]);
      AnyLoop(fuel, all, rest, s, errs)
        == if o.Fail? && o.fault.Parse? then AnyLoop(fuel, all, rest[1..], s, errs + AltErrors(o.fault.e, rest[0])) else o
  {
    assert errs + [] == errs;
  }

  /** `Any` rejects only when every alternative fails. */
  lemma {:induction false} AnyRejectsOnlyIfAllFail(fuel: nat, all: seq<Rule>, rest: seq<Rule>, s: Sequence, errs: seq<Error>)
    ensures var o := AnyLoop(fuel, all, rest, s, errs);
      o.Fail? && o.fault.Parse? ==> forall i :: 0 <= i < |rest| ==> AltFails(fuel, s, rest[i])
    decreases |rest|
  {
    if rest != [] {
      AnyStep(fuel, all, rest, s, errs);
      var o := AltOutcome(fuel, s, rest[0]);
      if o.Fail? && o.fault.Parse? {
        var errs' := errs + AltErrors(o.fault.e, rest[0]);
        AnyRejectsOnlyIfAllFail(fuel, all, rest[1..], s, errs');
        var r := AnyLoop(fuel, all, rest[1..], s, errs');
        if r.Fail? && r.fault.Parse? {
          forall i | 1 <= i < |rest| ensures AltFails(fuel, s, rest[i]) {
            assert rest[1..][i - 1] == rest[i];
          }
        }
      }
    }
  }

  /** `Any` passes over the alternative `t`: trying it ends in a parse error. */
  predicate AltRejects(fuel: nat, s: Sequence, t: Rule) {
    var o := AltOutcome(fuel, s, t);
    o.Fail? && o.fault.Parse?
  }

  /** The position of the first alternative `Any` does not pass over, `|ts|` when it
      passes over all of them. */
  function FirstWorking(fuel: nat, s: Sequence, ts: seq<Rule>): (i: nat)
    ensures i <= |ts|
    decreases |ts|
  {
    if ts == [] then 0
    else if AltRejects(fuel, s, ts[0]) then 1 + FirstWorking(fuel, s, ts[1..])
    else 0
  }

  /** The errors `Any` records for the alternatives it passes over before the first
      working one: per alternative, in order, its wrapped `ParserError`, or nothing for a
      missed optional. */
  function PassedErrors(fuel: nat, s: Sequence, ts: seq<Rule>): seq<Error>
    decreases |ts|
  {
    if ts == [] || !AltRejects(fuel, s, ts[0]) then []
    else AltErrors(AltOutcome(fuel, s, ts[0]).fault.e, ts[0]) + PassedErrors(fuel, s, ts[1..])
  }

  /** `FirstWorking` is the first: every alternative before it is passed over, and it is not. */
  lemma {:induction false} FirstWorkingIsFirst(fuel: nat, s: Sequence, ts: seq<Rule>)
    ensures var i := FirstWorking(fuel, s, ts);
      (forall k :: 0 <= k < i ==> AltRejects(fuel, s, ts[k]))
      && (i < |ts| ==> !AltRejects(fuel, s, ts[i]))
    decreases |ts|
  {
    if ts != [] && AltRejects(fuel, s, ts[0]) {
      FirstWorkingIsFirst(fuel, s, ts[1..]);
      var i := FirstWorking(fuel, s, ts);
      forall k | 1 <= k < i ensures AltRejects(fuel, s, ts[k]) {
        assert ts[1..][k - 1] == ts[k];
      }
      if i < |ts| {
        assert ts[1..][i - 1] == ts[i];
      }
    }
  }

  /** `Any`'s loop settles on the first alternative it does not pass over and returns
      that alternative's outcome; when it passes over all, it raises the `AnyParserError`
      over all types with the errors recorded so far followed by those of `rest`. */
  lemma {:induction false} AnyLoopSettles(fuel: nat, all: seq<Rule>, rest: seq<Rule>, s: Sequence, errs: seq<Error>)
    ensures var i := FirstWorking(fuel, s, rest);
      AnyLoop(fuel, all, rest, s, errs)
        == if i < |rest| then AltOutcome(fuel, s, rest[i])
           else Fail(Parse(MkMulti(AnyErr, Types(all), errs + PassedErrors(fuel, s, rest))))
    decreases |rest|
  {
    if rest == [] {
      assert errs + [] == errs;
    } else {
      AnyStep(fuel, all, rest, s, errs);
      if AltRejects(fuel, s, rest[0]) {
        var extra := AltErrors(AltOutcome(fuel, s, rest[0]).fault.e, rest[0]);
        AnyLoopSettles(fuel, all, rest[1..], s, errs + extra);
        var j := FirstWorking(fuel, s, rest[1..]);
        if j < |rest[1..]| {
          assert rest[1..][j] == rest[j + 1];
        } else {
          assert errs + extra + PassedErrors(fuel, s, rest[1..]) == errs + PassedErrors(fuel, s, rest);
        }
      }
    }
  }

  /** When `Any` rejects, it is with the `AnyParserError` that lists the types of all
      alternatives and, after the errors already recorded, the errors `es`: exactly the
      wrapped errors of the rejected alternatives in order, so at most one per alternative. */
  lemma {:induction false} AnyRejection(fuel: nat, all: seq<Rule>, rest: seq<Rule>, s: Sequence, errs: seq<Error>)
    returns (es: seq<Error>)
    ensures |es| <= |rest|
    ensures var o := AnyLoop(fuel, all, rest, s, errs);
      o.Fail? && o.fault.Parse? ==> o.fault.e == MkMulti(AnyErr, Types(all), errs + es)
    ensures var o := AnyLoop(fuel, all, rest, s, errs);
      o.Fail? && o.fault.Parse? ==> es == PassedErrors(fuel, s, rest)
    decreases |rest|
  {
    if rest == [] {
      es := [];
      assert errs + es == errs;
    } else {
      AnyStep(fuel, all, rest, s, errs);
      var o := AltOutcome(fuel, s, rest[0]);
      if o.Fail? && o.fault.Parse? {
        var extra := AltErrors(o.fault.e, rest[0]);
        var es' := AnyRejection(fuel, all, rest[1..], s, errs + extra);
        es := extra + es';
        assert errs + extra + es' == errs + es;
      } else {
        es := [];
      }
    }
  }

  /** `Any(ts)` run as a rule is its loop over all alternatives, with no error recorded yet. */
  lemma AnyRunIsLoop(fuel: nat, ts: seq<Rule>, s: Sequence)
    requires fuel > 0
    ensures Run(fuel, AnyP(ts), s) == AnyLoop(fuel - 1, ts, ts, s, [])
  {
  }

  /** The facts of `AnySpec` for an outcome `o` of the loop `Any.parse` runs over all its
      alternatives. */
  lemma AnyLoopSpec(fuel: nat, ts: seq<Rule>, s: Sequence, o: Outcome)
    requires o == AnyLoop(fuel, ts, ts, s, [])
    ensures var i := FirstWorking(fuel, s, ts);
      (forall k :: 0 <= k < i ==> AltRejects(fuel, s, ts[k]))
      && o == if i < |ts| then AltOutcome(fuel, s, ts[i])
              else Fail(Parse(MkMulti(AnyErr, Types(ts), PassedErrors(fuel, s, ts))))
    ensures (o.Ok? ==> exists i :: 0 <= i < |ts| && TryParse(fuel, s, ts[i]).Ok? && Run(fuel, ts[i], s) == o)
      && (o.Fail? && o.fault.Parse? ==>
            (forall i :: 0 <= i < |ts| ==> AltFails(fuel, s, ts[i]))
            && exists es :: o.fault.e == MkMulti(AnyErr, Types(ts), es) && |es| <= |ts|)
  {
    AnyPicksAnAlternative(fuel, ts, ts, s, []);
    AnyRejectsOnlyIfAllFail(fuel, ts, ts, s, []);
    var es := AnyRejection(fuel, ts, ts, s, []);
    assert [] + es == es;
    if o.Fail? && o.fault.Parse? {
      assert o.fault.e == MkMulti(AnyErr, Types(ts), es) && |es| <= |ts|;
    }
    FirstWorkingIsFirst(fuel, s, ts);
    AnyLoopSettles(fuel, ts, ts, s, []);
    assert [] + PassedErrors(fuel, s, ts) == PassedErrors(fuel, s, ts);
  }

  /** `Any(ts)` as a parser: its outcome is that of the first alternative it does not pass
      over, every earlier one having failed with a parse error; when it passes over all,
      it rejects with the `AnyParserError` over all their types and, in order, the
      wrapped error of each rejected alternative (none for a missed optional). */
  lemma AnySpec(fuel: nat, ts: seq<Rule>, s: Sequence)
    requires fuel > 0
    ensures var o := Run(fuel, AnyP(ts), s);
      var i := FirstWorking(fuel - 1, s, ts);
      (forall k :: 0 <= k < i ==> AltRejects(fuel - 1, s, ts[k]))
      && o == if i < |ts| then AltOutcome(fuel - 1, s, ts[i])
              else Fail(Parse(MkMulti(AnyErr, Types(ts), PassedErrors(fuel - 1, s, ts))))
    ensures var o := Run(fuel, AnyP(ts), s);
      (o.Ok? ==> exists i :: 0 <= i < |ts| && TryParse(fuel - 1, s, ts[i]).Ok? && Run(fuel - 1, ts[i], s) == o)
      && (o.Fail? && o.fault.Parse? ==>
            (forall i :: 0 <= i < |ts| ==> AltFails(fuel - 1, s, ts[i]))
            && exists es :: o.fault.e == MkMulti(AnyErr, Types(ts), es) && |es| <= |ts|)
  {
    AnyRunIsLoop(fuel, ts, s);
    AnyLoopSpec(fuel - 1, ts, s, Run(fuel, AnyP(ts), s));
  }

  // ----- Cast -----

  /** Without recovery, a `Cast` succeeds exactly when its target parses at the start of
      its sequence, and then holds that token as its only child. */
  lemma CastSpec(fuel: nat, c: Cls, t: Rule, s: Sequence)
    requires Plain(t) && s.pointer == 0
    ensures var o := FactoryParse(fuel, c, CastB(t), s);
      var q := TryParse(fuel, s, t);
      (o.Ok? <==> q.Ok?)
      && (o.Ok? ==> o.node == Comp(c, [q.node]))
  {
    assert Construct(CastB(t)).None?;
    PlainParseAndStep(fuel, s, t);
    PlainSeqParse(fuel, s, t);
    var (s1, o) := ParseAndStep(fuel, s, t);
    assert RunBody(fuel, CastB(t), s) == if o.Ok? then (ClearFrom(s1, 0), Done) else (s1, Raised(o.fault));
    if o.Ok? {
      ClearKeepsPrefix(s1, 0);
      assert s1.content[..1] == [s1.content[0]];
    } else {
      var (s2, o2) := SeqParse(fuel, s, t);
      assert o2 == o;
    }
  }

  // ----- Chain and Trim -----

  /** Without recovery, a `Chain` succeeds exactly when `CollectAt` collects from the input,
      and is then the composite of the chain's class over exactly the collected tokens:
      target by target, the token it parses where the previous one ended, or nothing for
      a target missed there as an optional. */
  lemma ChainSpec(fuel: nat, c: Cls, ts: seq<Rule>, s: Sequence)
    requires AllPlain(ts) && s.pointer == 0
    ensures var o := FactoryParse(fuel, c, ChainB(ts), s);
      var found := CollectAt(fuel, ts, s.content);
      (o.Ok? <==> found.Some?) && (o.Ok? ==> o.node == Comp(c, found.value))
  {
    assert s.content[0..] == s.content;
    ChainLoopCollects(fuel, ts, s);
    var (s1, st) := ChainLoop(fuel, ts, s);
    if st.Done? {
      ClearKeepsPrefix(s1, 0);
      assert s1.content[..s1.pointer] == s1.content[0..s1.pointer];
    }
  }

  /** A token `tryParse` returns for a factory is what the factory's `parse` built on the
      copy of the remainder, with one unit of fuel spent on the dispatch. */
  lemma TryParseOfFactory(fuel: nat, q: Sequence, c: Cls, b: Body)
    requires TryParse(fuel, q, Make(c, b)).Ok?
    ensures fuel > 0 && 0 <= q.pointer < Size(q)
    ensures var cp := Sequence(q.content[q.pointer..], 0);
      FactoryParse(fuel - 1, c, b, cp) == TryParse(fuel, q, Make(c, b))
  {
  }

  /** A token a factory parses is a composite of the factory's class. */
  lemma FactoryYieldsItsClass(fuel: nat, c: Cls, b: Body, q: Sequence, n: Node)
    requires TryParse(fuel, q, Make(c, b)) == Ok(n)
    ensures n.Comp? && n.cls == c
  {
    TryParseOfFactory(fuel, q, c, b);
  }

  /** `x` is one character of a padding: a `DefinedChar` over a character symbol of the blacklist. */
  predicate PadChar(x: Node, blacklist: string) {
    x.Comp? && x.cls == DefinedCharC && |x.children| == 1
    && IsGlyph(x.children[0]) && x.children[0].kind.c in blacklist
  }

  /** `x` is a padding: a `Trimmed` token over at least one blacklisted character. */
  predicate Padding(x: Node, blacklist: string) {
    x.Comp? && x.cls == TrimmedC && x.children != []
    && forall k :: 0 <= k < |x.children| ==> PadChar(x.children[k], blacklist)
  }

  /** The token a `DefinedChar` parses at the cursor holds the character symbol found there,
      which is on its whitelist. */
  lemma DefinedCharYields(fuel: nat, wl: string, q: Sequence, n: Node)
    requires TryParse(fuel, q, DefinedCharP(wl)) == Ok(n)
    ensures 0 <= q.pointer < Size(q) && n == Comp(DefinedCharC, [q.content[q.pointer]])
    ensures PadChar(n, wl)
  {
    TryParseOfFactory(fuel, q, DefinedCharC, DefinedCharB(wl));
    var cp := Sequence(q.content[q.pointer..], 0);
    DefinedCharSpec(fuel - 1, wl, cp);
    assert cp.content[0] == q.content[q.pointer];
  }

  /** `Trimmed.parser` holds no `Savior`. */
  lemma PaddingIsPlain(blacklist: string)
    ensures Plain(TrimmedP(blacklist)) && Plain(DefinedCharP(blacklist))
  {
    assert PlainBody(DefinedCharB(blacklist));
    assert Plain(DefinedCharP(blacklist));
  }

  /** From `s`'s cursor to `s'`'s, `s'` holds blacklisted characters only, and before
      `s`'s cursor it holds what `s` holds. */
  predicate PadRun(s: Sequence, s': Sequence, blacklist: string) {
    0 <= s.pointer <= s'.pointer <= Size(s') && s.pointer <= Size(s)
    && s'.content[..s.pointer] == s.content[..s.pointer]
    && forall k :: s.pointer <= k < s'.pointer ==> PadChar(s'.content[k], blacklist)
  }

  /** A blacklisted character placed at the cursor and stepped over, then a run of them:
      a run of them from the first cursor on. */
  lemma PadRunCons(s: Sequence, s1: Sequence, s': Sequence, n: Node, blacklist: string)
    requires 0 <= s.pointer <= Size(s) && PadChar(n, blacklist)
    requires s1.pointer == s.pointer + 1 <= Size(s1)
    requires s1.content[..s.pointer] == s.content[..s.pointer] && s1.content[s.pointer] == n
    requires PadRun(s1, s', blacklist)
    ensures PadRun(s, s', blacklist)
  {
    var p := s.pointer;
    StepThenRest(s.content[..p], n, s1, s');
    assert s'.content[p] == s'.content[p..s'.pointer][0];
  }

  /** The repetition inside a padding: when it completes, every token it fused from the
      cursor on is a blacklisted character, and what lies before the cursor is kept. */
  lemma {:induction false} PadLoop(fuel: nat, blacklist: string, s: Sequence)
    requires 0 <= s.pointer <= Size(s)
    ensures var (s', st) := ArrayLoop(fuel, DefinedCharP(blacklist), 0, s);
      st.Done? ==> PadRun(s, s', blacklist)
    decreases fuel
  {
    var d := DefinedCharP(blacklist);
    var p := s.pointer;
    if !IsEof(s) && fuel > 0 {
      PaddingIsPlain(blacklist);
      PlainParseAndStep(fuel - 1, s, d);
      PlainSeqParse(fuel - 1, s, d);
      ArrayLoopRound(fuel, d, 0, s);
      var (s1, o) := ParseAndStep(fuel - 1, s, d);
      if o.Ok? {
        DefinedCharYields(fuel - 1, blacklist, s, o.node);
        PadLoop(fuel - 1, blacklist, s1);
        var (s', st) := ArrayLoop(fuel - 1, d, 0, s1);
        if st.Done? {
          PadRunCons(s, s1, s', o.node, blacklist);
        }
      } else if IsMiss(o) {
        PadLoop(fuel - 1, blacklist, s1);
      }
    }
  }

  /** The `Trimmed` array built at the start of its sequence is a padding. */
  lemma TrimmedArrayPads(fuel: nat, blacklist: string, s: Sequence)
    requires s.pointer == 0
    ensures var o := FactoryParse(fuel, TrimmedC, ArrayB(DefinedCharP(blacklist), 1, 0), s);
      o.Ok? ==> Padding(o.node, blacklist)
  {
    var d := DefinedCharP(blacklist);
    assert Construct(ArrayB(d, 1, 0)).None?;
    assert RunBody(fuel, ArrayB(d, 1, 0), s) == ArrayBody(fuel, d, 1, 0, s);
    PadLoop(fuel, blacklist, s);
    var (s1, st) := ArrayLoop(fuel, d, 0, s);
    if st.Done? {
      var s3 := ClearFrom(s1, 0);
      assert s3.content == s1.content[0..s1.pointer];
      assert ArrayBody(fuel, d, 1, 0, s) == ArrayFinish(s1, 1);
      if Size(s3) >= 1 {
        assert FactoryParse(fuel, TrimmedC, ArrayB(d, 1, 0), s) == Ok(Comp(TrimmedC, s3.content));
        forall k | 0 <= k < |s3.content| ensures PadChar(s3.content[k], blacklist) {
          assert s3.content[k] == s1.content[k];
        }
      }
    }
  }

  /** What `Trimmed.parser` parses is a padding: a `Trimmed` token over at least one
      character of the blacklist, and nothing else. */
  lemma PaddingIsTrimmed(fuel: nat, blacklist: string, q: Sequence, n: Node)
    requires TryParse(fuel, q, TrimmedP(blacklist)) == Ok(n)
    ensures Padding(n, blacklist)
  {
    var m := Make(TrimmedC, ArrayB(DefinedCharP(blacklist), 1, 0));
    assert TrimmedP(blacklist) == Opt(m);
    assert CopyRemainder(q).Success?;
    var c := CopyRemainder(q).value;
    assert Run(fuel, Opt(m), c) == Ok(n);
    assert fuel > 0 && OptionalParse(fuel - 1, m, c) == Ok(n);
    PaddingIsPlain(blacklist);
    assert PlainBody(m.body);
    PlainSeqParse(fuel - 1, c, m);
    assert TryParse(fuel - 1, c, m) == Ok(n);
    TryParseOfFactory(fuel - 1, c, TrimmedC, m.body);
    TrimmedArrayPads(fuel - 2, blacklist, Sequence(c.content[c.pointer..], 0));
  }

  /** `h` is what the target `r` contributes running at the start of `rem`: the token it
      parses there, or nothing when it is missed there as an optional. */
  predicate TokenAt(fuel: nat, r: Rule, rem: seq<Node>, h: seq<Node>) {
    var q := TryParse(fuel, Sequence(rem, 0), r);
    |h| <= 1 && (h != [] ==> q == Ok(h[0])) && (h == [] ==> IsMiss(q))
  }

  /** How much of `rem` the contribution `h` replaces. */
  function Reach(h: seq<Node>, rem: seq<Node>): (k: nat)
    ensures k <= |rem|
  {
    if h == [] then 0 else Span(h[0], rem)
  }

  /** The first target of a chain contributes at most one token, the one it parses at the
      start of the remainder or none when it is missed there; the other targets collect
      the rest from where that token ends. */
  lemma CollectAtHead(fuel: nat, ts: seq<Rule>, rem: seq<Node>, cs: seq<Node>) returns (h: seq<Node>)
    requires ts != [] && CollectAt(fuel, ts, rem) == Some(cs)
    ensures TokenAt(fuel, ts[0], rem, h) && h <= cs
    ensures CollectAt(fuel, ts[1..], rem[Reach(h, rem)..]) == Some(cs[|h|..])
  {
    var q := TryParse(fuel, Sequence(rem, 0), ts[0]);
    if q.Ok? {
      h := [q.node];
      assert (cs[..1] == [q.node]);
    } else {
      h := [];
      assert cs[0..] == cs && rem[0..] == rem;
    }
  }

  /** A leading `Trimmed` padding contributes at most one token, a padding over its
      blacklist parsed at the start of the remainder, or none when it is missed there. */
  lemma PaddingTokens(fuel: nat, blacklist: string, rest: seq<Rule>, rem: seq<Node>, cs: seq<Node>)
    returns (h: seq<Node>)
    requires CollectAt(fuel, [TrimmedP(blacklist)] + rest, rem) == Some(cs)
    ensures TokenAt(fuel, TrimmedP(blacklist), rem, h) && h <= cs
    ensures CollectAt(fuel, rest, rem[Reach(h, rem)..]) == Some(cs[|h|..])
    ensures forall x :: x in h ==> Padding(x, blacklist)
  {
    var ts := [TrimmedP(blacklist)] + rest;
    assert ts[0] == TrimmedP(blacklist) && ts[1..] == rest;
    h := CollectAtHead(fuel, ts, rem, cs);
    if h != [] {
      PaddingIsTrimmed(fuel, blacklist, Sequence(rem, 0), h[0]);
    }
  }

  /** `cs` is a left padding `lp`, the target's contribution `mid` and a right padding `rp`,
      each running where the previous one ended in `rem`: each is at most one token, the
      one its rule parses there, or nothing when that rule is missed there; the
      paddings are over their blacklists. */
  predicate TrimShape(fuel: nat, target: Rule, left: string, right: string, rem: seq<Node>,
                      cs: seq<Node>, lp: seq<Node>, mid: seq<Node>, rp: seq<Node>) {
    var rem1 := rem[Reach(lp, rem)..];
    var rem2 := rem1[Reach(mid, rem1)..];
    cs == lp + mid + rp
    && TokenAt(fuel, TrimmedP(left), rem, lp) && TokenAt(fuel, target, rem1, mid)
    && TokenAt(fuel, TrimmedP(right), rem2, rp)
    && (forall x :: x in lp ==> Padding(x, left)) && (forall x :: x in rp ==> Padding(x, right))
  }

  /** Three prefixes taken one after the other that leave nothing make up the whole. */
  lemma ThreeParts(cs: seq<Node>, lp: seq<Node>, mid: seq<Node>, rp: seq<Node>)
    requires lp <= cs && mid <= cs[|lp|..] && rp <= cs[|lp|..][|mid|..]
    requires cs[|lp|..][|mid|..][|rp|..] == []
    ensures cs == lp + mid + rp
  {
    var c1 := cs[|lp|..];
    var c2 := c1[|mid|..];
    assert c2 == rp;
    assert c1 == mid + rp;
    assert cs == lp + c1;
  }

  /** The decomposition behind `TrimSpec`, on what the chain collects from `rem`. */
  lemma TrimTokens(fuel: nat, left: string, target: Rule, right: string, rem: seq<Node>, cs: seq<Node>)
    returns (lp: seq<Node>, mid: seq<Node>, rp: seq<Node>)
    requires CollectAt(fuel, [TrimmedP(left), target, TrimmedP(right)], rem) == Some(cs)
    ensures TrimShape(fuel, target, left, right, rem, cs, lp, mid, rp)
  {
    var ts2 := [target, TrimmedP(right)];
    assert [TrimmedP(left), target, TrimmedP(right)] == [TrimmedP(left)] + ts2;
    lp := PaddingTokens(fuel, left, ts2, rem, cs);
    var rem1 := rem[Reach(lp, rem)..];
    var c1 := cs[|lp|..];
    mid := CollectAtHead(fuel, ts2, rem1, c1);
    var rem2 := rem1[Reach(mid, rem1)..];
    var c2 := c1[|mid|..];
    assert ts2[1..] == [TrimmedP(right)] + [];
    rp := PaddingTokens(fuel, right, [], rem2, c2);
    ThreeParts(cs, lp, mid, rp);
  }

  /** Without recovery, a `Trim` succeeds exactly when its chain collects from the input,
      and then holds the left padding, the target's token (absent only when the target is
      missed where the left padding ends) and the right padding, each run where the
      previous one ended, each padding a `Trimmed` token over its blacklist. */
  lemma TrimSpec(fuel: nat, cls: Cls, target: Rule, left: string, right: string, s: Sequence)
    requires Plain(target) && s.pointer == 0
    ensures var o := FactoryParse(fuel, cls, ChainB([TrimmedP(left), target, TrimmedP(right)]), s);
      (o.Ok? <==> CollectAt(fuel, [TrimmedP(left), target, TrimmedP(right)], s.content).Some?)
      && (o.Ok? ==>
            o.node.Comp? && o.node.cls == cls &&
            exists lp: seq<Node>, mid: seq<Node>, rp: seq<Node> ::
              TrimShape(fuel, target, left, right, s.content, o.node.children, lp, mid, rp))
  {
    var ts := [TrimmedP(left), target, TrimmedP(right)];
    PaddingIsPlain(left);
    PaddingIsPlain(right);
    assert AllPlain(ts);
    ChainSpec(fuel, cls, ts, s);
    var o := FactoryParse(fuel, cls, ChainB(ts), s);
    if o.Ok? {
      var lp, mid, rp := TrimTokens(fuel, left, target, right, s.content, o.node.children);
    }
  }

  // ----- interrupted composite tokens -----

  /** A composite token whose code throws an interrupter yields an `Interruption`
      carrying the token as far as it was built; `parse` fuses that partial token at the
      cursor, drops what follows, steps past it and rethrows the bare interrupter. */
  lemma InterruptionFusesPartialToken(fuel: nat, c: Cls, i: Interrupter, s: Sequence)
    requires fuel > 0 && 0 <= s.pointer < Size(s)
    ensures var (s', o) := SeqParse(fuel, s, Make(c, RaiseB(i)));
      var p := s.pointer;
      o == Fail(Interrupt(i))
      && s'.pointer == p + 1 && Size(s') == p + 1
      && s'.content[..p] == s.content[..p] && s'.content[p] == Comp(c, s.content[p..])
  {
    var p := s.pointer;
    var cp := CopyRemainder(s).value;
    assert cp == Sequence(s.content[p..], 0);
    assert Run(fuel, Make(c, RaiseB(i)), cp) == FactoryParse(fuel - 1, c, RaiseB(i), cp);
    var tok := Comp(c, s.content[p..]);
    assert Construct(RaiseB(i)).None?;
    assert RunBody(fuel - 1, RaiseB(i), cp) == (cp, Raised(Interrupt(i)));
    assert FactoryParse(fuel - 1, c, RaiseB(i), cp) == Fail(Interruption(i, tok));
    assert TryParse(fuel, s, Make(c, RaiseB(i))) == Fail(Interruption(i, tok));
    var s1 := Fusion(s, tok).value;
    ClearKeepsPrefix(s1, 1);
    assert s1.content[..p + 1][..p] == s.content[..p];
  }
}
