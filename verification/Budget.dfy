/** What the limits of a decoder bound, on any input whatever. */
module Budget {
  import opened Base
  import opened Stlv
  import opened Schema
  import opened Codec
  import Varint

  /** The longest head the writer produces. */
  const LONGEST_HEAD: nat := TAG_SIZE + 1 + 9

  lemma HeadSizeBound(head: AtomHead)
    requires head.Writable()
    ensures head.HeadSize() <= LONGEST_HEAD
  {
    if head.Value? && head.length >= 127 {
      var n := head.length - 127;
      Varint.Power128Bound(8);
      Varint.PrefixLength(n / 128, 8);
      Varint.SizeExact(n);
    }
  }

  /** The size charged for a head is the number of bytes it was read from if these are no more than the
      longest head the writer produces, and less if they are more. */
  lemma HeadCharged(s: seq<byte>)
    requires ReadHead(s).Ok? && ReadHead(s).value.Some?
    ensures var (head, rest) := ReadHead(s).value.value;
      if |s| - |rest| <= LONGEST_HEAD then |s| - |rest| == head.HeadSize() else |s| - |rest| > head.HeadSize()
  {
    var (head, rest) := ReadHead(s).value.value;
    CanonicalHead(s);
    HeadSizeBound(head);
    if |s| - |rest| <= LONGEST_HEAD {
      ReadEncodeHead(head, []);
      assert EncodeHead(head) == s[..|s| - |rest|];
    }
  }

  /** What reading heads and values adds up to: the bytes of heads beyond the sizes charged for them,
      the number of heads longer than any head the writer produces, and the value bytes that are read
      and therefore charged twice. */
  datatype Ledger = Ledger(excess: nat, overlong: nat, values: nat) {
    function Plus(more: Ledger): Ledger {
      Ledger(excess + more.excess, overlong + more.overlong, values + more.values)
    }
  }

  const NOTHING: Ledger := Ledger(0, 0, 0)

  /** The ledger of reading the next head. */
  function OfHead(s: seq<byte>): Ledger {
    match ReadHead(s)
    case Ok(Some((head, rest))) =>
      var size := |s| - |rest|;
      Ledger(if size <= head.HeadSize() then 0 else size - head.HeadSize(), if size <= LONGEST_HEAD then 0 else 1, 0)
    case _ => NOTHING
  }

  /** The ledger of skipping the rest of an item. Nothing is read, so that no value counts. */
  function OfSkip(head: AtomHead, st: State): Ledger
    decreases |st.rest|, 1
  {
    if head.Start? then OfSkipSegment(head.tag, st) else NOTHING
  }

  function OfSkipSegment(tag: Tag, st: State): Ledger
    decreases |st.rest|, 0
  {
    match NextHead(st)
    case Err => NOTHING
    case Ok((head, st')) =>
      if head == End(tag) then OfHead(st.rest)
      else
        var more := match SkipAtom(head, st') case Ok(st'') => OfSkipSegment(tag, st'') case Err => NOTHING;
        OfHead(st.rest).Plus(OfSkip(head, st')).Plus(more)
  }

  /** The ledger of decoding the rest of an item. */
  function OfItem(item: Item, head: AtomHead, st: State): Ledger
    decreases |st.rest|, 1
  {
    match item
    case Prim(_) => Ledger(0, 0, if head.Value? then head.length else 0)
    case Struct(fields) => OfFields(fields, head.tag, Empty(fields), st)
  }

  function OfFields(fields: seq<Field>, tag: Tag, got: seq<seq<Val>>, st: State): Ledger
    requires |got| == |fields|
    decreases |st.rest|, 0
  {
    match NextHead(st)
    case Err => NOTHING
    case Ok((head, st')) =>
      if head.End? then OfHead(st.rest)
      else
        match FieldIndex(fields, head.tag)
        case Some(i) =>
          var more := match DecodeItem(fields[i].item, head, st')
            case Ok((v, st'')) => OfFields(fields, tag, got[i := got[i] + [v]], st'')
            case Err => NOTHING;
          OfHead(st.rest).Plus(OfItem(fields[i].item, head, st')).Plus(more)
        case None =>
          var more := match SkipAtom(head, st')
            case Ok(st'') => OfFields(fields, tag, got, st'')
            case Err => NOTHING;
          OfHead(st.rest).Plus(OfSkip(head, st')).Plus(more)
  }

  /** The bytes of a value whose head has been read: they are charged but not consumed yet. */
  function Pending(head: AtomHead): int {
    if head.Value? then head.length else 0
  }

  function Opened(head: AtomHead): int {
    if head.Start? then 1 else if head.End? then -1 else 0
  }

  /** Between the states, the bytes consumed are those charged, in addition to `pending` bytes that
      were charged before, and to what the ledger says. */
  ghost predicate Balanced(st: State, st': State, pending: int, ledger: Ledger) {
    |st'.rest| <= |st.rest| && st'.budget <= st.budget && (ledger.excess == 0 <==> ledger.overlong == 0) &&
    |st.rest| - |st'.rest| + ledger.values == st.budget - st'.budget + pending + ledger.excess
  }

  lemma Composed(a: State, b: State, c: State, d: State, pending: int, l: Ledger, m: Ledger, n: Ledger)
    requires Balanced(a, b, -pending, l) && Balanced(b, c, pending, m) && Balanced(c, d, 0, n)
    ensures Balanced(a, d, 0, l.Plus(m).Plus(n))
  {
  }

  lemma NextHeadBalanced(st: State)
    requires NextHead(st).Ok?
    ensures var (head, st') := NextHead(st).value;
      Balanced(st, st', -Pending(head), OfHead(st.rest)) && st'.depth == st.depth - Opened(head)
  {
    HeadCharged(st.rest);
  }

  lemma {:induction false} SkipAtomBalanced(head: AtomHead, st: State)
    requires SkipAtom(head, st).Ok?
    ensures var st' := SkipAtom(head, st).value;
      Balanced(st, st', Pending(head), OfSkip(head, st)) && OfSkip(head, st).values == 0 &&
      st'.depth == st.depth + Opened(head)
    decreases |st.rest|, 1
  {
    if head.Start? {
      SkipSegmentBalanced(head.tag, st);
    }
  }

  /** Skipping the rest of a segment, of any shape, consumes exactly what it is charged and the excess
      of the heads it reads, and closes the segment. */
  lemma {:induction false} SkipSegmentBalanced(tag: Tag, st: State)
    requires SkipSegment(tag, st).Ok?
    ensures var st', ledger := SkipSegment(tag, st).value, OfSkipSegment(tag, st);
      Balanced(st, st', 0, ledger) && ledger.values == 0 && st'.depth == st.depth + 1
    decreases |st.rest|, 0
  {
    NextHeadBalanced(st);
    var (head, st') := NextHead(st).value;
    if head != End(tag) {
      SkipAtomBalanced(head, st');
      var st'' := SkipAtom(head, st').value;
      SkipSegmentBalanced(tag, st'');
      Composed(st, st', st'', SkipSegment(tag, st'').value, Pending(head),
               OfHead(st.rest), OfSkip(head, st'), OfSkipSegment(tag, st''));
    }
  }

  lemma {:induction false} DecodeItemBalanced(item: Item, head: AtomHead, st: State)
    requires DecodeItem(item, head, st).Ok?
    ensures var st' := DecodeItem(item, head, st).value.1;
      Balanced(st, st', Pending(head), OfItem(item, head, st)) && st'.depth == st.depth + Opened(head)
    decreases |st.rest|, 1
  {
    match item
    case Prim(_) =>
    case Struct(fields) => DecodeFieldsBalanced(fields, head.tag, Empty(fields), st);
  }

  lemma {:induction false} DecodeFieldsBalanced(fields: seq<Field>, tag: Tag, got: seq<seq<Val>>, st: State)
    requires |got| == |fields| && DecodeFields(fields, tag, got, st).Ok?
    ensures var st' := DecodeFields(fields, tag, got, st).value.1;
      Balanced(st, st', 0, OfFields(fields, tag, got, st)) && st'.depth == st.depth + 1
    decreases |st.rest|, 0
  {
    NextHeadBalanced(st);
    var (head, st') := NextHead(st).value;
    if !head.End? {
      var end := DecodeFields(fields, tag, got, st).value.1;
      match FieldIndex(fields, head.tag)
      case Some(i) =>
        DecodeItemBalanced(fields[i].item, head, st');
        var (v, st'') := DecodeItem(fields[i].item, head, st').value;
        DecodeFieldsBalanced(fields, tag, got[i := got[i] + [v]], st'');
        Composed(st, st', st'', end, Pending(head), OfHead(st.rest), OfItem(fields[i].item, head, st'),
                 OfFields(fields, tag, got[i := got[i] + [v]], st''));
      case None =>
        SkipAtomBalanced(head, st');
        var st'' := SkipAtom(head, st').value;
        DecodeFieldsBalanced(fields, tag, got, st'');
        Composed(st, st', st'', end, Pending(head), OfHead(st.rest), OfSkip(head, st'),
                 OfFields(fields, tag, got, st''));
    }
  }

  /** Skipping the rest of a segment consumes no more than it is charged if and only if none of the
      heads it reads is overlong. */
  lemma SkipWithinCharge(tag: Tag, st: State)
    requires SkipSegment(tag, st).Ok?
    ensures var st' := SkipSegment(tag, st).value;
      |st.rest| - |st'.rest| <= st.budget - st'.budget <==> OfSkipSegment(tag, st).overlong == 0
  {
    SkipSegmentBalanced(tag, st);
  }

  /** The ledger of decoding a structure, head included. */
  function OfDecode(item: Item, st: State): Ledger {
    match NextHead(st)
    case Ok((head, st')) => OfHead(st.rest).Plus(OfItem(item, head, st'))
    case Err => NOTHING
  }

  /** Whatever the input: a decoder that has succeeded has closed all segments it has opened, and has
      consumed no more than it was charged, or no more than it was allowed to, if and only if the excess
      of the heads it has read is at most the size of the values it has read, or in addition what is left of
      the budget. Without overlong heads it has no excess. */
  lemma DecodeWithinLimits(item: Item, s: seq<byte>, depth: nat, budget: nat)
    requires Decode(item, State(s, depth, budget)).Ok?
    ensures var st := Decode(item, State(s, depth, budget)).value.1;
      var ledger := OfDecode(item, State(s, depth, budget));
      st.depth == depth && (ledger.excess == 0 <==> ledger.overlong == 0) &&
      (|s| - |st.rest| <= budget - st.budget <==> ledger.excess <= ledger.values) &&
      (|s| - |st.rest| <= budget <==> ledger.excess <= ledger.values + st.budget)
  {
    NextHeadBalanced(State(s, depth, budget));
    var (head, st) := NextHead(State(s, depth, budget)).value;
    DecodeItemBalanced(item, head, st);
  }

  /** A call of a decoder: read a head, or read or skip the value whose head has been read. */
  datatype Call = ReadHeadCall | ReadValueCall | SkipValueCall

  /** A decoder between two calls: its state, the length of the value to be read next, how many
      segments are open, and the ledger so far. */
  datatype Progress = Progress(st: State, value: Option<nat>, open: int, ledger: Ledger)

  /** The effect of a call. A head cannot be read while a value is pending. */
  function Perform(p: Progress, call: Call): Result<Progress> {
    match call
    case ReadHeadCall =>
      if p.value.Some? then Err
      else
        var (head, st) :- NextHead(p.st);
        Ok(Progress(st, if head.Value? then Some(head.length) else None, p.open + Opened(head),
                    p.ledger.Plus(OfHead(p.st.rest))))
    case ReadValueCall =>
      if p.value == None then Err
      else
        var (_, st) :- ReadValue(p.value.value, p.st);
        Ok(p.(st := st, value := None, ledger := p.ledger.Plus(Ledger(0, 0, p.value.value))))
    case SkipValueCall =>
      if p.value == None || |p.st.rest| < p.value.value then Err
      else Ok(p.(st := p.st.(rest := p.st.rest[p.value.value..]), value := None))
  }

  function PerformAll(p: Progress, calls: seq<Call>): Result<Progress> {
    if calls == [] then Ok(p)
    else
      var p' :- PerformAll(p, calls[..|calls| - 1]);
      Perform(p', calls[|calls| - 1])
  }

  ghost predicate Consistent(start: State, p: Progress) {
    var pending := if p.value.Some? then p.value.value else 0;
    Balanced(start, p.st, -pending, p.ledger) && p.open == start.depth - p.st.depth
  }

  lemma PerformConsistent(start: State, p: Progress, call: Call)
    requires Consistent(start, p) && Perform(p, call).Ok?
    ensures Consistent(start, Perform(p, call).value)
  {
    if call.ReadHeadCall? {
      NextHeadBalanced(p.st);
    }
  }

  /** At every point of every run of calls that has not failed, at most as many segments are open as the
      depth limit allows, and the bytes consumed are within the byte limit if and only if the excess of
      overlong heads is covered by the values read, the value pending, and what is left of the budget. */
  lemma {:induction false} RunWithinLimits(start: State, calls: seq<Call>)
    requires PerformAll(Progress(start, None, 0, NOTHING), calls).Ok?
    ensures var p := PerformAll(Progress(start, None, 0, NOTHING), calls).value;
      var pending := if p.value.Some? then p.value.value else 0;
      Consistent(start, p) && p.open <= start.depth &&
      (|start.rest| - |p.st.rest| <= start.budget <==> p.ledger.excess <= p.ledger.values + pending + p.st.budget)
  {
    if calls != [] {
      RunWithinLimits(start, calls[..|calls| - 1]);
      PerformConsistent(start, PerformAll(Progress(start, None, 0, NOTHING), calls[..|calls| - 1]).value,
                        calls[|calls| - 1]);
    }
  }

  /** The head of a value of 127 bytes, with a length of ten digits. */
  function OverlongHead(tag: Tag): seq<byte> {
    tag + [255] + ([130] + Varint.Zeros(Varint.EIGHT))
  }

  lemma ReadLongHead(tag: Tag, digits: seq<byte>, n: nat, value: seq<byte>)
    requires Varint.Read(digits + value) == Ok((n, value))
    ensures ReadHead(tag + [255] + digits + value) == Ok(Some((Value(tag, 127 + n), value)))
  {
    var s := tag + [255] + digits + value;
    assert s[..TAG_SIZE] == tag && s[TAG_SIZE + 1..] == digits + value;
  }

  lemma ReadOverlongHead(tag: Tag, value: seq<byte>)
    ensures |OverlongHead(tag)| == 15 && ReadHead(OverlongHead(tag) + value) == Ok(Some((Value(tag, 127), value)))
  {
    Varint.OverlongExample(value);
    ReadLongHead(tag, [130] + Varint.Zeros(Varint.EIGHT), 0, value);
  }

  /** With an overlong head, nine bytes more are consumed than the budget allows. */
  lemma OverlongHeadEscapes(tag: Tag, value: seq<byte>)
    requires |value| == 127
    ensures var s := OverlongHead(tag) + value;
      |s| == 142 && SkipNode(State(s, 0, 133)) == Ok(State([], 0, 0))
  {
    ReadOverlongHead(tag, value);
    assert Varint.Size(0) == 1;
    assert value[127..] == [];
  }
}
