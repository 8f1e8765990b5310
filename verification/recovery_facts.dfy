/**
 * Error recovery: `Sequence.find`, the dummy tokens and `Savior`. Recovery never
 * invents a success; it replaces an interrupted parse by a dummy token that
 * travels up as a `FailedTokenInterruption` until `parse` fuses it.
 */
module RecoveryFacts {
  import opened Wrappers
  import opened Kinds
  import opened Nodes
  import opened Sequences
  import opened Grammar
  import opened Errors
  import opened Engine
  import opened EngineFacts

  /** `t` lies between the two cursors of the same list of tokens, all of them character symbols. */
  predicate SkippedGlyphs(s: Sequence, t: Sequence) {
    t.content == s.content && 0 <= s.pointer <= t.pointer <= Size(s)
    && forall k :: s.pointer <= k < t.pointer ==> IsGlyph(s.content[k])
  }

  // ----- find -----

  /** `Char` at the cursor, as `find` uses it to step: it steps over a character symbol
      and leaves the sequence alone otherwise. */
  lemma FindAdvance(fuel: nat, s: Sequence)
    ensures var (s1, o) := ParseAndStep(fuel, s, CharP);
      (o.Ok? ==> s1 == Next(s) && 0 <= s.pointer < Size(s) && IsGlyph(s.content[s.pointer]))
      && (o.Fail? ==> s1 == s)
  {
    if fuel > 0 {
      CharStep(fuel, s);
    } else {
      PlainParseAndStep(fuel, s, CharP);
    }
  }

  /** `find` started at `s` with `fuel` tries `target` at offset `k` of the same list with
      one unit of fuel less per character it has stepped over, and it parses there. */
  predicate ParsesAt(fuel: nat, s: Sequence, target: Rule, k: int) {
    s.pointer <= k && k - s.pointer < fuel
    && TryParse(fuel - 1 - (k - s.pointer), Sequence(s.content, k), target).Ok?
  }

  /** ... and it does not parse there. */
  predicate MissesAt(fuel: nat, s: Sequence, target: Rule, k: int) {
    s.pointer <= k && k - s.pointer < fuel
    && !TryParse(fuel - 1 - (k - s.pointer), Sequence(s.content, k), target).Ok?
  }

  /** What `find` promises: forward over character symbols only, past every place where
      `target` does not parse, stopping at the first place where it does (which is not an
      end of input), or failing with the `NotFoundError` of its target. */
  predicate FindResult(fuel: nat, s: Sequence, target: Rule, s': Sequence, st: Status) {
    SkippedGlyphs(s, s')
    && (st.Done? ==> !IsEof(s') && ParsesAt(fuel, s, target, s'.pointer))
    && (forall k :: s.pointer <= k < s'.pointer ==> MissesAt(fuel, s, target, k))
    && (st.Raised? && st.fault.Parse? ==> st.fault.e == NotFoundError(0, target))
  }

  /** The search from the next character, with one unit of fuel less, tries each later
      place with the same fuel. */
  lemma PlaceShift(fuel: nat, s: Sequence, target: Rule, k: int)
    requires fuel > 0 && s.pointer < k
    ensures MissesAt(fuel - 1, Next(s), target, k) ==> MissesAt(fuel, s, target, k)
    ensures ParsesAt(fuel - 1, Next(s), target, k) ==> ParsesAt(fuel, s, target, k)
  {
    var n := Next(s);
    assert n.content == s.content && n.pointer == s.pointer + 1;
    assert fuel - 1 - 1 - (k - n.pointer) == fuel - 1 - (k - s.pointer);
  }

  /** Hence `find`'s promise from the next character, after a miss here, is its promise here. */
  lemma FindResultShift(fuel: nat, s: Sequence, target: Rule, s': Sequence, st: Status)
    requires fuel > 0 && 0 <= s.pointer < Size(s) && IsGlyph(s.content[s.pointer])
    requires !TryParse(fuel - 1, s, target).Ok?
    requires FindResult(fuel - 1, Next(s), target, s', st)
    ensures FindResult(fuel, s, target, s', st)
  {
    assert Sequence(s.content, s.pointer) == s;
    assert MissesAt(fuel, s, target, s.pointer);
    forall k | s.pointer < k < s'.pointer
      ensures MissesAt(fuel, s, target, k)
    {
      PlaceShift(fuel, s, target, k);
    }
    if st.Done? {
      PlaceShift(fuel, s, target, s'.pointer);
    }
  }

  /** A character symbol at the cursor followed by a skipped run is a skipped run. */
  lemma SkippedOneMore(s: Sequence, s': Sequence)
    requires 0 <= s.pointer < Size(s) && IsGlyph(s.content[s.pointer])
    requires SkippedGlyphs(Next(s), s')
    ensures SkippedGlyphs(s, s')
  {
  }

  /** One round of `find` before the end of input: it stops where `target` parses, steps
      over one character and goes on after a parse failure or an interrupter, and
      otherwise fails where it is. */
  lemma FindRound(fuel: nat, s: Sequence, target: Rule)
    requires !IsEof(s) && fuel > 0
    ensures var q := TryParse(fuel - 1, s, target);
      var (s1, o) := ParseAndStep(fuel - 1, s, CharP);
      Find(fuel, s, target) ==
        if q.Ok? then (s, Done)
        else if q.fault.Parse? || q.fault.Interrupt? || q.fault.Interruption? then
          if o.Ok? then Find(fuel - 1, s1, target)
          else if o.fault.Parse? || o.fault.Interrupt? then (s1, Raised(Parse(NotFoundError(0, target))))
          else (s1, Raised(o.fault))
        else (s, Raised(q.fault))
  {
  }

  /** A `find` that ends where it started keeps its promise, if it fails with its
      `NotFoundError` or stops where `target` parses. */
  lemma FindStays(fuel: nat, s: Sequence, target: Rule, st: Status)
    requires 0 <= s.pointer <= Size(s)
    requires st.Raised? && st.fault.Parse? ==> st.fault.e == NotFoundError(0, target)
    requires st.Done? ==> !IsEof(s) && fuel > 0 && TryParse(fuel - 1, s, target).Ok?
    ensures FindResult(fuel, s, target, s, st)
  {
    assert Sequence(s.content, s.pointer) == s;
  }

  /** `find` goes on past a character where `target` does not parse. */
  predicate FindGoesOn(fuel: nat, s: Sequence, target: Rule) {
    !IsEof(s) && fuel > 0
    && var q := TryParse(fuel - 1, s, target);
    q.Fail? && (q.fault.Parse? || q.fault.Interrupt? || q.fault.Interruption?)
    && ParseAndStep(fuel - 1, s, CharP).1.Ok?
  }

  /** When `find` goes on, the next character is still inside the list. */
  lemma FindNextInside(fuel: nat, s: Sequence, target: Rule)
    requires 0 <= s.pointer <= Size(s) && FindGoesOn(fuel, s, target)
    ensures var s1 := ParseAndStep(fuel - 1, s, CharP).0;
      0 <= s1.pointer <= Size(s1)
  {
    FindAdvance(fuel - 1, s);
  }

  /** When `find` goes on, its promise from the next character is its promise here. */
  lemma FindStep(fuel: nat, s: Sequence, target: Rule)
    requires 0 <= s.pointer <= Size(s) && FindGoesOn(fuel, s, target)
    requires var s1 := ParseAndStep(fuel - 1, s, CharP).0;
      FindResult(fuel - 1, s1, target, Find(fuel - 1, s1, target).0, Find(fuel - 1, s1, target).1)
    ensures FindResult(fuel, s, target, Find(fuel, s, target).0, Find(fuel, s, target).1)
  {
    FindRound(fuel, s, target);
    FindAdvance(fuel - 1, s);
    var s1 := ParseAndStep(fuel - 1, s, CharP).0;
    var (s', st) := Find(fuel - 1, s1, target);
    SkippedOneMore(s, s');
    FindResultShift(fuel, s, target, s', st);
  }

  /** When `find` does not go on, it ends where it is and keeps its promise. */
  lemma FindHalts(fuel: nat, s: Sequence, target: Rule)
    requires 0 <= s.pointer <= Size(s) && !FindGoesOn(fuel, s, target)
    ensures FindResult(fuel, s, target, Find(fuel, s, target).0, Find(fuel, s, target).1)
  {
    var (s', st) := Find(fuel, s, target);
    if !IsEof(s) && fuel > 0 {
      FindRound(fuel, s, target);
      FindAdvance(fuel - 1, s);
    }
    assert s' == s;
    FindStays(fuel, s, target, st);
  }

  /** One round of `find`: either it goes on to `s1`, still inside the list, and keeps its
      promise here if it keeps it from there, or it keeps its promise here outright. */
  lemma FindCase(fuel: nat, s: Sequence, target: Rule) returns (goesOn: bool, s1: Sequence)
    requires 0 <= s.pointer <= Size(s)
    ensures goesOn ==> fuel > 0 && 0 <= s1.pointer <= Size(s1)
    ensures goesOn && FindResult(fuel - 1, s1, target, Find(fuel - 1, s1, target).0, Find(fuel - 1, s1, target).1) ==>
      FindResult(fuel, s, target, Find(fuel, s, target).0, Find(fuel, s, target).1)
    ensures !goesOn ==> FindResult(fuel, s, target, Find(fuel, s, target).0, Find(fuel, s, target).1)
  {
    goesOn := FindGoesOn(fuel, s, target);
    s1 := s;
    if goesOn {
      FindNextInside(fuel, s, target);
      s1 := ParseAndStep(fuel - 1, s, CharP).0;
      if FindResult(fuel - 1, s1, target, Find(fuel - 1, s1, target).0, Find(fuel - 1, s1, target).1) {
        FindStep(fuel, s, target);
      }
    } else {
      FindHalts(fuel, s, target);
    }
  }

  /** `find` keeps its promise. */
  lemma {:induction false} FindSkipsGlyphs(fuel: nat, s: Sequence, target: Rule)
    requires 0 <= s.pointer <= Size(s)
    ensures FindResult(fuel, s, target, Find(fuel, s, target).0, Find(fuel, s, target).1)
    decreases fuel
  {
    var goesOn, s1 := FindCase(fuel, s, target);
    if goesOn {
      FindSkipsGlyphs(fuel - 1, s1, target);
    }
  }

  // ----- the dummy tokens -----

  /** `DummyToken.parse` after a successful search: the dummy holds the characters
      skipped from the start of its sequence, and at least one of them; with none
      skipped it throws `EOFInterrupter`. */
  lemma DummyFinishHoldsSkipped(s: Sequence, s1: Sequence)
    requires s.pointer == 0 && SkippedGlyphs(s, s1)
    ensures var (s', st) := DummyFinish(s1);
      (st.Done? <==> s1.pointer >= 1)
      && (s1.pointer == 0 ==> st == Raised(Interrupt(EOFInterrupter)))
      && s'.content == s.content[..s1.pointer]
      && forall k :: 0 <= k < Size(s') ==> IsGlyph(s'.content[k])
  {
    ClearKeepsPrefix(s1, 0);
  }

  /** `s'` holds the non-empty run of leading characters of `s` that precede the first
      place where `sync` parses, as `find` started on `s` with `fuel` tries it. */
  predicate HoldsSkippedRun(fuel: nat, s: Sequence, sync: Rule, s': Sequence) {
    1 <= Size(s') <= Size(s) && s'.content == s.content[..Size(s')]
    && (forall k :: 0 <= k < Size(s') ==> IsGlyph(s'.content[k]))
    && ParsesAt(fuel, s, sync, Size(s'))
    && (forall k :: 0 <= k < Size(s') ==> MissesAt(fuel, s, sync, k))
  }

  /** The shared end of `UnexpectedToken.parse` and `UnknownToken.parse` after a search
      that stopped at `s1` keeps the skipped run. */
  lemma FindThenFinish(fuel: nat, s: Sequence, sync: Rule)
    requires s.pointer == 0
    ensures var (s1, st) := Find(fuel, s, sync);
      st.Done? && DummyFinish(s1).1.Done? ==> HoldsSkippedRun(fuel, s, sync, DummyFinish(s1).0)
  {
    FindSkipsGlyphs(fuel, s, sync);
    var (s1, st) := Find(fuel, s, sync);
    if st.Done? {
      DummyFinishHoldsSkipped(s, s1);
    }
  }

  /** An `UnexpectedToken` that re-synchronises on `sync` holds the non-empty run of
      characters that precede the first place where `sync` parses. */
  lemma UnexpectedSpec(fuel: nat, i: Interrupter, sync: Rule, s: Sequence)
    requires s.pointer == 0
    ensures var (s', st) := DummyParse(fuel, UnexpectedD(i, sync), s);
      st.Done? ==> HoldsSkippedRun(fuel, s, sync, s')
  {
    FindThenFinish(fuel, s, sync);
    var (s1, st) := Find(fuel, s, sync);
    if st.Done? {
      assert DummyParse(fuel, UnexpectedD(i, sync), s) == DummyFinish(s1);
    } else {
      assert DummyParse(fuel, UnexpectedD(i, sync), s).1.Raised?;
    }
  }

  /** A `FailedToken` searches for its sync target. When the search finds nothing, the
      original `Interruption` is rethrown; when it stops at once, the skipped run is empty
      and an `EOFInterrupter` is thrown. Otherwise the dummy keeps the characters before
      the sync point and appends a zero-width `Break` at the last character's offset. */
  lemma FailedSpec(fuel: nat, cause: Interrupter, tok: Node, sync: Rule, s: Sequence)
    requires s.pointer == 0
    ensures var (s', st) := DummyParse(fuel, FailedD(cause, tok, sync), s);
      var (c, fs) := Find(fuel, s, sync);
      (fs.Raised? && fs.fault.Parse? ==> s' == s && st == Raised(Interruption(cause, tok)))
      && (fs.Raised? && !fs.fault.Parse? ==> st == fs)
      && (fs.Done? && c.pointer == 0 ==> st == Raised(Interrupt(EOFInterrupter)))
      && (st.Done? <==> fs.Done? && c.pointer >= 1)
      && (st.Done? ==> HoldsRunAndBreak(fuel, s, sync, c.pointer, s'))
  {
    FindForFailed(fuel, s, sync);
    FailedParseSteps(fuel, cause, tok, sync, s);
    var (c, fs) := Find(fuel, s, sync);
    if fs.Done? {
      FailedFinishSpec(s, c);
      FailedDone(fuel, s, sync, c);
    }
  }

  /** `s'` holds the first `n` tokens of `s`, all of them characters, followed by a `Break`
      at the last one's offset, and `sync` parses right after them. */
  predicate HoldsRunAndBreak(fuel: nat, s: Sequence, sync: Rule, n: int, s': Sequence) {
    1 <= n <= Size(s) && (forall k :: 0 <= k < n ==> IsGlyph(s.content[k]))
    && s'.content == s.content[..n] + [Sym(BreakS, s.content[n - 1].offset)]
    && ParsesAt(fuel, s, sync, n)
  }

  /** A cut after a search that stopped where `sync` parses holds the run and the `Break`. */
  lemma FailedDone(fuel: nat, s: Sequence, sync: Rule, c: Sequence)
    requires s.pointer == 0 && SkippedGlyphs(s, c) && ParsesAt(fuel, s, sync, c.pointer)
    ensures FailedFinish(s, c).1.Done? ==> HoldsRunAndBreak(fuel, s, sync, c.pointer, FailedFinish(s, c).0)
  {
    FailedFinishSpec(s, c);
  }

  /** `FailedToken.parse` is the search followed by the rethrow or by the cut. */
  lemma FailedParseSteps(fuel: nat, cause: Interrupter, tok: Node, sync: Rule, s: Sequence)
    ensures var (c, fs) := Find(fuel, s, sync);
      DummyParse(fuel, FailedD(cause, tok, sync), s) ==
        if fs.Done? then FailedFinish(s, c)
        else (s, if fs.fault.Parse? && fs.fault.e.NotFoundError? then Raised(Interruption(cause, tok)) else fs)
  {
  }

  /** The part of `find`'s promise that `FailedToken.parse` relies on. */
  lemma FindForFailed(fuel: nat, s: Sequence, sync: Rule)
    requires 0 <= s.pointer <= Size(s)
    ensures var (c, fs) := Find(fuel, s, sync);
      SkippedGlyphs(s, c) && (fs.Done? ==> ParsesAt(fuel, s, sync, c.pointer))
      && (fs.Raised? && fs.fault.Parse? ==> fs.fault.e.NotFoundError?)
  {
    FindSkipsGlyphs(fuel, s, sync);
  }

  /** The cut and the `Break` of `FailedToken.parse`, after a search that skipped characters only. */
  lemma FailedFinishSpec(s: Sequence, c: Sequence)
    requires s.pointer == 0 && SkippedGlyphs(s, c)
    ensures var (s', st) := FailedFinish(s, c);
      var n := c.pointer;
      (n == 0 ==> st == Raised(Interrupt(EOFInterrupter)))
      && (st.Done? <==> n >= 1)
      && (st.Done? ==> s'.content == s.content[..n] + [Sym(BreakS, s.content[n - 1].offset)])
  {
    var n := c.pointer;
    ClearKeepsPrefix(c, 0);
    var c' := ClearFrom(c, 0);
    assert c'.content == s.content[..n] && c'.pointer == n;
    if n >= 1 {
      var last := s.content[n - 1];
      assert c'.content[n - 1] == last && IsGlyph(last);
      assert EndIndex(c') == Some(last.offset + 1);
      ClearKeepsPrefix(s, n);
      var s1 := ClearFrom(s, n);
      assert s1.content == s.content[..n];
      assert Length(Sym(BreakS, last.offset)) == 0;
    }
  }

  /** An `UnknownToken` that re-synchronises holds what an `UnexpectedToken` would. */
  lemma UnknownSpec(fuel: nat, i: Interrupter, sync: Rule, s: Sequence)
    requires s.pointer == 0
    ensures var (s', st) := DummyParse(fuel, UnknownD(i, sync), s);
      st.Done? ==> HoldsSkippedRun(fuel, s, sync, s')
  {
    FindThenFinish(fuel, s, sync);
    var (s1, st) := Find(fuel, s, sync);
    if st.Done? {
      assert DummyParse(fuel, UnknownD(i, sync), s) == DummyFinish(s1);
    } else {
      assert DummyParse(fuel, UnknownD(i, sync), s).1.Raised?;
    }
  }

  /** An `UnknownToken` whose search fails rethrows the interrupter it was built for,
      so it never rejects with a parse error. */
  lemma UnknownRethrows(fuel: nat, i: Interrupter, sync: Rule, s: Sequence)
    requires s.pointer == 0
    ensures var (_, st) := DummyParse(fuel, UnknownD(i, sync), s);
      (Find(fuel, s, sync).1.Raised? && Find(fuel, s, sync).1.fault.Parse? ==> st == Raised(Interrupt(i)))
      && (st.Raised? ==> !st.fault.Parse?)
  {
    FindSkipsGlyphs(fuel, s, sync);
  }

  /** A `MissingToken` is a zero-width `Epsilon` inserted at the cursor: what precedes
      is kept, what follows is dropped, and the cursor steps past it. */
  lemma MissingSpec(s: Sequence)
    requires 0 <= s.pointer < Size(s) && Index(s.content[s.pointer]).Some?
    ensures var (s', st) := MissingBody(s);
      var p := s.pointer;
      st.Done? && s'.pointer == p + 1
      && s'.content == s.content[..p] + [Sym(EpsilonS, Index(s.content[p]).value)]
  {
    var p := s.pointer;
    var e := Sym(EpsilonS, Index(s.content[p]).value);
    var s1 := Fusion(s, e).value;
    assert Length(e) == 0;
    assert s1.content == s.content[..p] + [e] + s.content[p..];
    ClearKeepsPrefix(s1, 1);
    assert s1.content[..p + 1] == s.content[..p] + [e];
  }

  // ----- Savior -----

  /** Building the dummy of a recovery is itself a failure: `parseToken` ends by throwing
      the `FailedTokenInterruption` (or the fault of the sync search), never a token. */
  lemma {:induction false} ParseTokenFails(fuel: nat, missing: bool, d: Dummy, s: Sequence)
    ensures ParseToken(fuel, missing, d, s).Fail?
  {
  }

  /** A `Savior` succeeds exactly when its target does, with the same token: recovery
      never turns a failure into a success. */
  lemma SaviorNeverFabricates(fuel: nat, t: Rule, sync: Option<Rule>, missing: bool, s: Sequence)
    ensures var o := SaviorParse(fuel, t, sync, missing, s);
      (o.Ok? <==> Run(fuel, t, s).Ok?) && (o.Ok? ==> o == Run(fuel, t, s))
  {
    var r := Run(fuel, t, s);
    if r.Fail? && r.fault.Interruption? && !IsFatal(r.fault.cause) {
      ParseTokenFails(fuel, missing, OnInterruption(r.fault.cause, r.fault.token, t, sync, missing), s);
    } else if r.Fail? && r.fault.Interrupt? {
      ParseTokenFails(fuel, missing, OnInterrupter(r.fault.i, t, sync), s);
    }
  }

  /** A `Savior` recovers only from interrupters: a recovered dummy comes from a bare
      interrupter or from an interruption whose cause is not fatal, and a fatal
      interruption passes through unchanged. */
  lemma SaviorRecoversOnlyInterrupters(fuel: nat, t: Rule, sync: Option<Rule>, missing: bool, s: Sequence)
    ensures var o := SaviorParse(fuel, t, sync, missing, s);
      var r := Run(fuel, t, s);
      (o.Fail? && o.fault.FailedTokenInterruption? ==>
         r.Fail? && (r.fault.Interrupt? || (r.fault.Interruption? && !IsFatal(r.fault.cause))
                     || r.fault.FailedTokenInterruption?))
      && (r.Fail? && r.fault.Interruption? && IsFatal(r.fault.cause) ==> o == r)
  {
  }
}
