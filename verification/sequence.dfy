/**
 * The `Sequence` cursor: a list of tokens and an integer pointer. Java
 * mutates a `Sequence` in place; here each operation returns the new value.
 * The Java runtime exceptions an operation can raise are `SeqFault`s.
 */
module Sequences {
  import opened Wrappers
  import opened Kinds
  import opened Nodes

  datatype Sequence = Sequence(content: seq<Node>, pointer: int)

  /** `EOFException`, `IndexOutOfRange`, the JDK's `IndexOutOfBoundsException`, and the
      `RuntimeException` of `append` for a token that is not zero-width. */
  datatype SeqFault = EOFException | IndexOutOfRange | IndexOutOfBounds | NonZeroLength

  /** `tokenize`: one `Atom` per character at its offset, then a zero-width `EOF`. */
  function Tokenize(s: string): (r: seq<Node>)
    ensures |r| == |s| + 1
    ensures forall i :: 0 <= i < |s| ==> r[i] == Sym(AtomS(s[i]), i)
    ensures r[|s|] == Sym(EofS, |s|)
  {
    seq(|s|, i requires 0 <= i < |s| => Sym(AtomS(s[i]), i)) + [Sym(EofS, |s|)]
  }

  /** `fromString`. */
  function FromString(s: string): Sequence {
    Sequence(Tokenize(s), 0)
  }

  function Size(q: Sequence): nat {
    |q.content|
  }

  /** `getLength`: total length of the tokens. */
  function TotalLength(q: Sequence): nat {
    SumLen(q.content)
  }

  /** `getRaw`. */
  function Text(q: Sequence): string {
    RawOf(q.content)
  }

  /** `isDone`. */
  predicate IsDone(q: Sequence) {
    q.pointer >= Size(q)
  }

  /** `getCurrent`; `None` is the `EOFException` for a pointer outside the list. */
  function Current(q: Sequence): (r: Option<Node>)
    ensures r.Some? <==> 0 <= q.pointer < Size(q)
    ensures r.Some? ==> r.value == q.content[q.pointer]
  {
    if 0 <= q.pointer < |q.content| then Some(q.content[q.pointer]) else None
  }

  /** `isEof`: no current token, or the current token is an `EOF` (a `Break` included). */
  predicate IsEof(q: Sequence) {
    match Current(q)
    case None => true
    case Some(t) => Matches(t, EofC)
  }

  /** `move` and `next`. */
  function Move(q: Sequence, steps: int): Sequence {
    q.(pointer := q.pointer + steps)
  }

  function Next(q: Sequence): Sequence {
    Move(q, 1)
  }

  /** `copy()` and `copy(p)`: same tokens, the given pointer. */
  function CopyAt(q: Sequence, p: int): Sequence {
    Sequence(q.content, p)
  }

  /** `getRemainder`: the tokens from the pointer on (`subList` throws outside `[0, size]`). */
  function Remainder(q: Sequence): (r: Result<seq<Node>, SeqFault>)
    ensures r.Success? <==> 0 <= q.pointer <= Size(q)
    ensures r.Success? ==> q.content == q.content[..q.pointer] + r.value
  {
    if 0 <= q.pointer <= |q.content| then
      assert q.content == q.content[..q.pointer] + q.content[q.pointer..];
      Success(q.content[q.pointer..])
    else Failure(IndexOutOfBounds)
  }

  function Clamp(v: int, lo: int, hi: int): (r: int)
    requires lo <= hi
    ensures lo <= r <= hi
    ensures lo <= v <= hi ==> r == v
    ensures v < lo ==> r == lo
    ensures v > hi ==> r == hi
  {
    if v < lo then lo else if v > hi then hi else v
  }

  /** `getConsumed`: the tokens up to and including the current one. */
  function Consumed(q: Sequence): seq<Node> {
    q.content[..Clamp(q.pointer + 1, 0, |q.content|)]
  }

  /** `copyRemainder`: fails with `EOFException` once done, else a pointer-0 sequence of the remainder. */
  function CopyRemainder(q: Sequence): (r: Result<Sequence, SeqFault>)
    ensures IsDone(q) ==> r == Failure(EOFException)
    ensures 0 <= q.pointer < Size(q) ==> r == Success(Sequence(q.content[q.pointer..], 0))
  {
    if IsDone(q) then Failure(EOFException)
    else match Remainder(q)
      case Success(rest) => Success(Sequence(rest, 0))
      case Failure(f) => Failure(f)
  }

  /** `slice(start, end)`: keep `[from, to)` with both ends clamped; the pointer stays. */
  function Slice(q: Sequence, start: int, end: int): (r: Sequence)
    ensures r.pointer == q.pointer
    ensures |r.content| <= Size(q)
    ensures 0 <= start <= end <= Size(q) ==> r.content == q.content[start..end]
    ensures 0 <= start <= Size(q) && end < start ==> r.content == []
    ensures start <= 0 && Size(q) <= end ==> r.content == q.content
    ensures var from := if start < 0 then 0 else if start > Size(q) then Size(q) else start;
      exists to :: from <= to <= Size(q) && r.content == q.content[from..to]
  {
    var from := Clamp(start, 0, |q.content|);
    var to := Clamp(end, from, |q.content|);
    Sequence(q.content[from..to], q.pointer)
  }

  /** `clearAt(p)`, `clearFrom(k)`, `clearFrom()`, `clearRemainder()`. */
  function ClearAt(q: Sequence, p: int): Sequence {
    Slice(q, 0, p)
  }

  function ClearFrom(q: Sequence, offset: int): Sequence {
    ClearAt(q, q.pointer + offset)
  }

  function ClearRemainder(q: Sequence): Sequence {
    Next(ClearFrom(q, 1))
  }

  /** `fusion(t)`: replace `content[p .. min(p + length(t), size))` by `t`, `p` the pointer.
      The JDK rejects a pointer outside `[0, size]`. Re-rooting is implicit: parent links
      are recomputed from positions. */
  function Fusion(q: Sequence, t: Node): (r: Result<Sequence, SeqFault>)
    ensures r.Success? <==> 0 <= q.pointer <= Size(q)
    ensures r.Success? ==> r.value.pointer == q.pointer
  {
    var p := q.pointer;
    if p < 0 || p > |q.content| then Failure(IndexOutOfBounds)
    else
      var end := if p + Length(t) < |q.content| then p + Length(t) else |q.content|;
      Success(Sequence(q.content[..p] + [t] + q.content[end..], p))
  }

  /** `append(t)`: only zero-width tokens may be appended. */
  function Append(q: Sequence, t: Node): (r: Result<Sequence, SeqFault>)
    ensures r.Success? <==> Length(t) == 0
  {
    if Length(t) != 0 then Failure(NonZeroLength) else Success(Sequence(q.content + [t], q.pointer))
  }

  /** `getEndIndex`: 0 when empty, else the last token's offset plus its length. */
  function EndIndex(q: Sequence): Option<int> {
    if q.content == [] then Some(0)
    else match Index(q.content[|q.content| - 1])
      case Some(i) => Some(i + Length(q.content[|q.content| - 1]))
      case None => None
  }

  /** `getStartIndex`: the first token's offset; `EOFException` when empty. */
  function StartIndex(q: Sequence): Result<int, SeqFault> {
    if q.content == [] then Failure(EOFException)
    else match Index(q.content[0])
      case Some(i) => Success(i)
      case None => Failure(IndexOutOfBounds)
  }

  /** `getCurrentIndex`: the current token's offset, or the end index past the list. */
  function CurrentIndex(q: Sequence): Option<int> {
    match Current(q)
    case Some(t) => Index(t)
    case None => EndIndex(q)
  }

  /** `t` covers input offset `i`. */
  predicate Covers(t: Node, i: int) {
    Index(t).Some? && Index(t).value <= i < Index(t).value + Length(t)
  }

  /** `cs[k]` is the first token of `cs` covering `i`. */
  predicate FirstCover(cs: seq<Node>, i: int, k: int) {
    0 <= k < |cs| && Covers(cs[k], i) && forall j :: 0 <= j < k ==> !Covers(cs[j], i)
  }

  /** `getAt(i)`: the first token covering offset `i`, else `IndexOutOfRange`. A token
      whose offset cannot be computed (an empty composite) makes Java throw on the way. */
  function GetAt(cs: seq<Node>, i: int): (r: Result<Node, SeqFault>)
    ensures r.Success? ==> exists k :: FirstCover(cs, i, k) && cs[k] == r.value
    ensures r == Failure(IndexOutOfRange) <==> forall j :: 0 <= j < |cs| ==> Index(cs[j]).Some? && !Covers(cs[j], i)
    ensures r.Success? || r == Failure(IndexOutOfRange) || r == Failure(IndexOutOfBounds)
    ensures r == Failure(IndexOutOfBounds) ==> exists j :: 0 <= j < |cs| && Index(cs[j]).None?
  {
    if cs == [] then Failure(IndexOutOfRange)
    else if Index(cs[0]).None? then Failure(IndexOutOfBounds)
    else if Covers(cs[0], i) then Success(cs[0])
    else
      var r := GetAt(cs[1..], i);
      if r.Success? then
        var k :| FirstCover(cs[1..], i, k) && cs[1..][k] == r.value;
        assert cs[k + 1] == r.value && forall j :: 0 <= j < k + 1 ==> !Covers(cs[j], i);
        assert FirstCover(cs, i, k + 1);
        r
      else
        assert forall j :: 0 < j < |cs| ==> cs[j] == cs[1..][j - 1];
        r
  }

  /** `getSymbol(i)`: the token covering `i`, descended through composites down to a symbol. */
  function GetSymbol(cs: seq<Node>, i: int): (r: Result<Node, SeqFault>)
    ensures r.Success? ==> r.value.Sym? && Covers(r.value, i)
    decreases cs
  {
    match GetAt(cs, i)
    case Failure(f) => Failure(f)
    case Success(t) =>
      if t.Sym? then Success(t)
      else GetSymbol(t.children, i)
  }

  // ----- properties -----

  lemma {:induction false} AtomsSpell(cs: seq<Node>, s: string)
    requires |cs| == |s|
    requires forall i :: 0 <= i < |s| ==> cs[i].Sym? && cs[i].kind == AtomS(s[i])
    ensures RawOf(cs) == s && SumLen(cs) == |s|
  {
    if cs != [] {
      AtomsSpell(cs[1..], s[1..]);
    }
  }

  /** Tokenizing loses nothing: the tokens spell the input back, their lengths add up to the
      input length, and the end offset is the input length. */
  lemma TokenizeRoundTrip(s: string)
    ensures Text(FromString(s)) == s
    ensures TotalLength(FromString(s)) == |s|
    ensures EndIndex(FromString(s)) == Some(|s|)
  {
    var t := Tokenize(s);
    assert t == t[..|s|] + [Sym(EofS, |s|)];
    AtomsSpell(t[..|s|], s);
    RawOfAppend(t[..|s|], [Sym(EofS, |s|)]);
    SumLenAppend(t[..|s|], [Sym(EofS, |s|)]);
  }

  /** The tokenized "ABCDEF" has 7 tokens of total length 6, starts at offset 0 and ends at 6. */
  lemma TokenizeExample()
    ensures Size(FromString("ABCDEF")) == 7
    ensures TotalLength(FromString("ABCDEF")) == 6
    ensures CurrentIndex(FromString("ABCDEF")) == Some(0)
    ensures EndIndex(FromString("ABCDEF")) == Some(6)
  {
    TokenizeRoundTrip("ABCDEF");
  }

  /** On a tokenized input, `getAt(i)` is the atom at `i` for every offset of the input and
      `IndexOutOfRange` everywhere else (the zero-width `EOF` covers nothing). */
  lemma GetAtTokenized(s: string, i: int)
    ensures 0 <= i < |s| ==> GetAt(Tokenize(s), i) == Success(Sym(AtomS(s[i]), i))
    ensures !(0 <= i < |s|) ==> GetAt(Tokenize(s), i) == Failure(IndexOutOfRange)
  {
    var t := Tokenize(s);
    assert forall j :: 0 <= j < |t| ==> Index(t[j]) == Some(j);
    if 0 <= i < |s| {
      assert FirstCover(t, i, i);
      var r := GetAt(t, i);
      if r.Success? {
        var k :| FirstCover(t, i, k) && t[k] == r.value;
        assert k == i;
      }
    }
  }

  /** Past the pointer, `isEof` on a tokenized input holds exactly outside `[0, |s|)`, and a
      sequence that is done is always at its end. */
  lemma IsEofTokenized(s: string, p: int)
    ensures IsEof(CopyAt(FromString(s), p)) <==> (p < 0 || p >= |s|)
    ensures IsDone(CopyAt(FromString(s), p)) ==> IsEof(CopyAt(FromString(s), p))
  {
    if 0 <= p < |s| {
      assert !IsA(AtomC, EofC);
    }
  }

  /** `getConsumed` and `getRemainder` share the current token and together make up the
      content; `clearRemainder` keeps exactly the consumed tokens and steps past them. */
  lemma ConsumedRemainderPartition(q: Sequence)
    requires 0 <= q.pointer < Size(q)
    ensures Remainder(q).Success? && Remainder(q).value[0] == Current(q).value
    ensures Consumed(q) + Remainder(q).value[1..] == q.content
    ensures ClearRemainder(q) == Sequence(Consumed(q), q.pointer + 1)
  {
    var p := q.pointer;
    assert Consumed(q) == q.content[..p + 1];
    assert q.content[..p + 1] + q.content[p + 1..] == q.content;
  }

  /** The current token is the head of the remainder: there is one exactly when the pointer
      is in range and the remainder is not empty. */
  lemma CurrentHeadsRemainder(q: Sequence)
    ensures Current(q).Some? <==> Remainder(q).Success? && Remainder(q).value != []
    ensures Current(q).Some? ==> Current(q).value == Remainder(q).value[0]
  {
  }

  /** Cutting at any point and slicing the two sides gives the content back. */
  lemma SliceSplit(q: Sequence, k: int)
    ensures Slice(q, 0, k).content + Slice(q, k, Size(q)).content == q.content
  {
    var n := Clamp(k, 0, Size(q));
    assert Slice(q, 0, k).content == q.content[..n];
    assert Slice(q, k, Size(q)).content == q.content[n..];
    assert q.content[..n] + q.content[n..] == q.content;
  }

  /** The clearing operations keep a prefix whose length is the clamped cut point. */
  lemma ClearKeepsPrefix(q: Sequence, k: int)
    ensures var r := ClearFrom(q, k);
      var n := Clamp(q.pointer + k, 0, Size(q));
      r.content == q.content[..n] && r.pointer == q.pointer && |r.content| == n
  {
  }

  /** Each clearing variant applied to "ABCDEF" leaves a single token. */
  lemma ClearExample()
    ensures Size(ClearRemainder(FromString("ABCDEF"))) == 1
    ensures Size(ClearFrom(CopyAt(FromString("ABCDEF"), 1), 0)) == 1
    ensures Size(ClearFrom(FromString("ABCDEF"), 1)) == 1
    ensures Size(ClearAt(FromString("ABCDEF"), 1)) == 1
  {
  }

  /** A copy of the remainder is the remainder at pointer 0, and it is refused exactly when
      nothing remains. */
  lemma CopyRemainderExact(q: Sequence)
    requires q.pointer >= 0
    ensures CopyRemainder(q).Failure? <==> IsDone(q)
    ensures CopyRemainder(q).Success? ==>
      CopyRemainder(q).value.pointer == 0 && q.content[..q.pointer] + CopyRemainder(q).value.content == q.content
  {
  }

  /** `fusion` keeps everything before the pointer, puts the token at the pointer, and keeps
      everything after the replaced range. If the token spells exactly the text it replaces,
      the sequence's text and total length are unchanged. */
  lemma FusionKeepsText(q: Sequence, t: Node)
    requires 0 <= q.pointer <= Size(q)
    ensures var r := Fusion(q, t).value;
      var end := if q.pointer + Length(t) < Size(q) then q.pointer + Length(t) else Size(q);
      r.content[..q.pointer] == q.content[..q.pointer] && r.content[q.pointer] == t &&
      r.content[q.pointer + 1..] == q.content[end..] &&
      (Raw(t) == RawOf(q.content[q.pointer..end]) ==> Text(r) == Text(q) && TotalLength(r) == TotalLength(q))
  {
    var p := q.pointer;
    var end := if p + Length(t) < Size(q) then p + Length(t) else Size(q);
    var before, mid, after := q.content[..p], q.content[p..end], q.content[end..];
    FusionSplits(q, t, end);
    SpliceParts(before, t, after);
    if Raw(t) == RawOf(mid) {
      FusionKeepsRaw(before, t, mid, after);
    }
  }

  /** What `fusion` leaves: the part before the cursor, the token, the part after its span. */
  lemma FusionSplits(q: Sequence, t: Node, end: int)
    requires 0 <= q.pointer <= Size(q)
    requires end == if q.pointer + Length(t) < Size(q) then q.pointer + Length(t) else Size(q)
    ensures Fusion(q, t).value.content == q.content[..q.pointer] + [t] + q.content[end..]
    ensures q.content == q.content[..q.pointer] + q.content[q.pointer..end] + q.content[end..]
  {
    assert q.content == q.content[..q.pointer] + q.content[q.pointer..end] + q.content[end..];
  }

  /** A token spliced between two runs sits at the end of the first; the runs are kept. */
  lemma SpliceParts(a: seq<Node>, t: Node, b: seq<Node>)
    ensures var c := a + [t] + b;
      |c| == |a| + 1 + |b| && c[..|a|] == a && c[|a|] == t && c[|a| + 1..] == b
  {
    var c := a + [t] + b;
    assert c[..|a|] == a;
    assert c[|a| + 1..] == b;
  }

  /** Replacing a run of tokens by one token with the same text keeps the text and the length. */
  lemma FusionKeepsRaw(a: seq<Node>, t: Node, mid: seq<Node>, b: seq<Node>)
    requires Raw(t) == RawOf(mid)
    ensures RawOf(a + [t] + b) == RawOf(a + mid + b)
    ensures SumLen(a + [t] + b) == SumLen(a + mid + b)
  {
    RawOfAppend(a + [t], b);
    RawOfAppend(a, [t]);
    RawOfAppend(a + mid, b);
    RawOfAppend(a, mid);
    FusionKeepsLength(a, t, mid, b);
  }

  lemma FusionKeepsLength(a: seq<Node>, t: Node, mid: seq<Node>, b: seq<Node>)
    requires Raw(t) == RawOf(mid)
    ensures SumLen(a + [t] + b) == SumLen(a + mid + b)
  {
    RawLength(t);
    RawOfLength(mid);
    SumLenAppend(a + [t], b);
    SumLenAppend(a, [t]);
    SumLenAppend(a + mid, b);
    SumLenAppend(a, mid);
  }

  /** Appending a zero-width token adds it at the end without changing text or length. */
  lemma AppendKeepsText(q: Sequence, t: Node)
    requires Length(t) == 0
    ensures Append(q, t).value.content[..Size(q)] == q.content
    ensures Text(Append(q, t).value) == Text(q) && TotalLength(Append(q, t).value) == TotalLength(q)
  {
    RawLength(t);
    RawOfAppend(q.content, [t]);
    SumLenAppend(q.content, [t]);
  }

  /** One step of the `getAt` scan: a token with an offset either covers `i` or is skipped. */
  lemma GetAtStep(cs: seq<Node>, i: int)
    requires cs != [] && Index(cs[0]).Some?
    ensures Covers(cs[0], i) ==> GetAt(cs, i) == Success(cs[0])
    ensures !Covers(cs[0], i) ==> GetAt(cs, i) == GetAt(cs[1..], i)
  {
  }

  /** After fusing composites, `getSymbol` still finds the original atoms: with "ABCDEF"
      parsed as a chain of the literals "ABC" and "DEF", offset 0 is 'A' and offset 5 is 'F'. */
  lemma GetSymbolThroughComposites(chain: Cls, lit: Cls)
    ensures var abc := Comp(lit, [Sym(AtomS('A'), 0), Sym(AtomS('B'), 1), Sym(AtomS('C'), 2)]);
      var def := Comp(lit, [Sym(AtomS('D'), 3), Sym(AtomS('E'), 4), Sym(AtomS('F'), 5)]);
      var top := [Comp(chain, [abc, def]), Sym(EofS, 6)];
      GetSymbol(top, 0) == Success(Sym(AtomS('A'), 0)) && GetSymbol(top, 5) == Success(Sym(AtomS('F'), 5))
  {
    var abc := Comp(lit, [Sym(AtomS('A'), 0), Sym(AtomS('B'), 1), Sym(AtomS('C'), 2)]);
    var def := Comp(lit, [Sym(AtomS('D'), 3), Sym(AtomS('E'), 4), Sym(AtomS('F'), 5)]);
    AtomsSpell(abc.children, "ABC");
    AtomsSpell(def.children, "DEF");
    var c := Comp(chain, [abc, def]);
    SumLenAppend([abc], [def]);
    assert [abc] + [def] == [abc, def];
    CompositeIndexIsFirstChild(lit, abc.children);
    CompositeIndexIsFirstChild(chain, [abc, def]);
    assert Length(c) == 6 && Index(c) == Some(0);
    var top := [c, Sym(EofS, 6)];
    GetAtStep(top, 0);
    GetAtStep(top, 5);
    GetAtStep(c.children, 0);
    GetAtStep(c.children, 5);
    assert c.children[1..] == [def];
    GetAtStep([def], 5);
    GetAtStep(abc.children, 0);
    assert Index(abc) == Some(0) && Length(abc) == 3 && Covers(abc, 0);
    assert GetAt(c.children, 0) == Success(abc);
    assert GetSymbol(abc.children, 0) == Success(Sym(AtomS('A'), 0));
    assert GetSymbol(c.children, 0) == Success(Sym(AtomS('A'), 0));
    var d := def.children;
    GetAtStep(d, 5);
    GetAtStep(d[1..], 5);
    GetAtStep(d[1..][1..], 5);
    assert d[1..][1..][0] == Sym(AtomS('F'), 5);
    assert GetAt(d, 5) == Success(Sym(AtomS('F'), 5));
    assert Index(def) == Some(3) && Length(def) == 3 && !Covers(abc, 5) && Covers(def, 5);
    assert GetAt(c.children, 5) == Success(def);
    assert GetSymbol(d, 5) == Success(Sym(AtomS('F'), 5));
    assert GetSymbol(c.children, 5) == Success(Sym(AtomS('F'), 5));
    assert GetAt(top, 5) == Success(c);
  }

  // ----- getSymbol over well-formed trees -----

  /** Every token of `cs` has an offset, and each one starts where the previous one ends:
      the shape `fusion` leaves behind, a composite over a run of adjacent tokens. */
  predicate Contiguous(cs: seq<Node>) {
    (forall k :: 0 <= k < |cs| ==> Index(cs[k]).Some?) &&
    forall k :: 0 <= k < |cs| - 1 ==> Index(cs[k + 1]).value == Index(cs[k]).value + Length(cs[k])
  }

  /** Every composite in `n` has children, and they are contiguous. */
  predicate WellFormed(n: Node)
    decreases n
  {
    match n
    case Sym(_, _) => true
    case Comp(_, cs) => cs != [] && Contiguous(cs) && forall k :: 0 <= k < |cs| ==> WellFormed(cs[k])
  }

  /** In a contiguous run, the k-th token starts at the first token's offset plus the lengths
      of the tokens before it. */
  lemma {:induction false} ContiguousOffset(cs: seq<Node>, k: int)
    requires Contiguous(cs) && 0 <= k < |cs|
    ensures Index(cs[k]).value == Index(cs[0]).value + SumLen(cs[..k])
    ensures SumLen(cs[..k]) + Length(cs[k]) <= SumLen(cs)
  {
    SumLenAppend(cs[..k + 1], cs[k + 1..]);
    assert cs[..k + 1] + cs[k + 1..] == cs;
    SumLenAppend(cs[..k], [cs[k]]);
    assert cs[..k] + [cs[k]] == cs[..k + 1];
    assert SumLen([cs[k]]) == Length(cs[k]) + SumLen([]);
    if k > 0 {
      ContiguousOffset(cs, k - 1);
      assert cs[..k - 1] + [cs[k - 1]] == cs[..k];
      SumLenAppend(cs[..k - 1], [cs[k - 1]]);
      assert SumLen([cs[k - 1]]) == Length(cs[k - 1]) + SumLen([]);
    } else {
      assert cs[..0] == [];
    }
  }

  /** A composite over a contiguous run covers exactly the offsets some child covers. */
  lemma CompositeCovers(c: Cls, cs: seq<Node>, i: int)
    requires cs != [] && Contiguous(cs)
    ensures Covers(Comp(c, cs), i) <==> exists k :: 0 <= k < |cs| && Covers(cs[k], i)
  {
    if Covers(Comp(c, cs), i) {
      CoveredBySome(cs, i);
    }
    forall k | 0 <= k < |cs| && Covers(cs[k], i)
      ensures Covers(Comp(c, cs), i)
    {
      ContiguousOffset(cs, k);
    }
  }

  lemma {:induction false} CoveredBySome(cs: seq<Node>, i: int)
    requires cs != [] && Contiguous(cs)
    requires Index(cs[0]).value <= i < Index(cs[0]).value + SumLen(cs)
    ensures exists k :: 0 <= k < |cs| && Covers(cs[k], i)
  {
    if !Covers(cs[0], i) {
      var tail := cs[1..];
      assert tail != [];
      assert forall k :: 0 <= k < |tail| ==> tail[k] == cs[k + 1];
      assert Contiguous(tail);
      CoveredBySome(tail, i);
      var k :| 0 <= k < |tail| && Covers(tail[k], i);
      assert Covers(cs[k + 1], i);
    }
  }

  /** `getSymbol` looks only at what `getAt` finds. */
  lemma GetSymbolFollowsGetAt(x: seq<Node>, y: seq<Node>, i: int)
    requires GetAt(x, i) == GetAt(y, i)
    ensures GetSymbol(x, i) == GetSymbol(y, i)
  {
  }

  /** `getSymbol` finds a symbol whenever `getAt` finds a token and the tokens are well formed:
      every composite on the way down has a child covering the offset. */
  lemma {:induction false} GetSymbolComplete(cs: seq<Node>, i: int)
    requires GetAt(cs, i).Success?
    requires forall k :: 0 <= k < |cs| ==> WellFormed(cs[k])
    ensures GetSymbol(cs, i).Success?
    decreases cs
  {
    var t := GetAt(cs, i).value;
    var k :| FirstCover(cs, i, k) && cs[k] == t;
    if t.Comp? {
      assert WellFormed(cs[k]);
      CompositeCovers(t.cls, t.children, i);
      var j :| 0 <= j < |t.children| && Covers(t.children[j], i);
      assert GetAt(t.children, i) != Failure(IndexOutOfRange);
      assert GetAt(t.children, i).Success?;
      GetSymbolComplete(t.children, i);
    }
  }

  /** `getAt` reaches the first token of `x` covering `i`, whatever follows `x`. */
  lemma {:induction false} GetAtPrefix(x: seq<Node>, y: seq<Node>, i: int)
    requires GetAt(x, i).Success?
    ensures GetAt(x + y, i) == GetAt(x, i)
  {
    if !Covers(x[0], i) {
      GetAtPrefix(x[1..], y, i);
      GetAtPassOver(x, y, i);
    } else {
      GetAtStep(x, i);
      GetAtStep(x + y, i);
    }
  }

  /** Passing over a first token that has an offset and does not cover `i`. */
  lemma GetAtPassOver(x: seq<Node>, y: seq<Node>, i: int)
    requires x != [] && Index(x[0]).Some? && !Covers(x[0], i)
    ensures GetAt(x + y, i) == GetAt(x[1..] + y, i) && GetAt(x, i) == GetAt(x[1..], i)
  {
    var xy := x + y;
    assert xy[0] == x[0] && xy[1..] == x[1..] + y;
    GetAtStep(xy, i);
    GetAtStep(x, i);
  }

  /** `getAt` passes over tokens that have offsets and do not cover `i`. */
  lemma {:induction false} GetAtSkips(x: seq<Node>, y: seq<Node>, i: int)
    requires forall k :: 0 <= k < |x| ==> Index(x[k]).Some? && !Covers(x[k], i)
    ensures GetAt(x + y, i) == GetAt(y, i)
  {
    if x == [] {
      assert x + y == y;
    } else {
      assert (x + y)[0] == x[0];
      GetAtStep(x + y, i);
      assert (x + y)[1..] == x[1..] + y;
      GetAtSkips(x[1..], y, i);
    }
  }

  /** `fusion` of a composite over the contiguous run of tokens it spans, from the cursor on,
      leaves `getSymbol` unchanged at every offset. */
  lemma FusionKeepsSymbols(q: Sequence, cl: Cls, end: int, i: int)
    requires 0 <= q.pointer < end <= Size(q)
    requires Contiguous(q.content[q.pointer..end]) && SumLen(q.content[q.pointer..end]) == end - q.pointer
    ensures var r := Fusion(q, Comp(cl, q.content[q.pointer..end]));
      r.Success? && GetSymbol(r.value.content, i) == GetSymbol(q.content, i)
  {
    var p := q.pointer;
    var run := q.content[p..end];
    var r := Fusion(q, Comp(cl, run)).value;
    assert Length(Comp(cl, run)) == end - p;
    assert r.content == q.content[..p] + [Comp(cl, run)] + q.content[end..];
    assert q.content == q.content[..p] + run + q.content[end..];
    GetSymbolFusionInvariant(q.content[..p], cl, run, q.content[end..], i);
  }

  /** Fusing a composite over a contiguous run does not change what `getSymbol` finds:
      the symbols are still reached, now through the composite. */
  lemma {:induction false} GetSymbolFusionInvariant(before: seq<Node>, cl: Cls, run: seq<Node>, after: seq<Node>, i: int)
    requires run != [] && Contiguous(run)
    ensures GetSymbol(before + [Comp(cl, run)] + after, i) == GetSymbol(before + run + after, i)
  {
    var t := Comp(cl, run);
    if before == [] {
      assert before + [t] + after == [t] + after && before + run + after == run + after;
      assert ([t] + after)[0] == t && ([t] + after)[1..] == after;
      GetAtStep([t] + after, i);
      CompositeCovers(cl, run, i);
      if Covers(t, i) {
        var k :| 0 <= k < |run| && Covers(run[k], i);
        assert GetAt(run, i) != Failure(IndexOutOfRange);
        GetAtPrefix(run, after, i);
        GetSymbolFollowsGetAt(run + after, run, i);
      } else {
        GetAtSkips(run, after, i);
        GetSymbolFollowsGetAt([t] + after, after, i);
        GetSymbolFollowsGetAt(run + after, after, i);
      }
    } else {
      var x := before + [t] + after;
      var y := before + run + after;
      assert x[0] == before[0] && y[0] == before[0];
      assert x[1..] == before[1..] + [t] + after && y[1..] == before[1..] + run + after;
      if Index(before[0]).Some? {
        GetAtStep(x, i);
        GetAtStep(y, i);
        if !Covers(before[0], i) {
          GetSymbolFusionInvariant(before[1..], cl, run, after, i);
          GetSymbolFollowsGetAt(x, x[1..], i);
          GetSymbolFollowsGetAt(y, y[1..], i);
        }
      }
    }
  }
}
