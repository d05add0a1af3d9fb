/** What a network can do to a client that streams a file, and when a read comes through. */
module HttpEvents {
  import opened Base

  /** How a request ends: with a response, which may tell the total length of the file, or without. */
  datatype RequestEnd = Answered(status: nat, total: Option<nat>) | Refused(retryable: bool)

  /** How reading from the body of a response ends: with some bytes, about `n` of them, with no
      bytes (the body has ended or was cut short), or with an error. */
  datatype BodyEnd = Gave(n: nat) | Ended | Broke

  /** What the network does next, when a request is sent and when a body is read. Beyond a finite
      sequence of events, the network is gone for good: requests are refused and bodies break. As
      every call that returns has seen finitely many events, this covers every behaviour of the
      network under which a call returns. */
  datatype Event = Event(request: RequestEnd, body: BodyEnd)

  function FirstEvent(network: seq<Event>): Event {
    if network == [] then Event(Refused(false), Broke) else network[0]
  }

  function LaterEvents(network: seq<Event>): seq<Event> {
    if network == [] then [] else network[1..]
  }

  /** Skipped bytes are read in pieces of at most this size. */
  const SKIP_BUFFER_SIZE: nat := 8192

  /** A response with the requested range of a file that still has the expected length. */
  predicate Accepted(request: RequestEnd, length: nat) {
    request.Answered? && request.status == 206 && (request.total == None || request.total == Some(length))
  }

  /** How many bytes of a body are read when the network has about `n` of them. */
  function Given(n: nat, capacity: nat, rest: nat): nat {
    Min(Min(Max(n, 1), capacity), rest)
  }

  /** Where a read has got to: whether ranges can be requested, whether the position is the end of the file,
      whether there is a response and whether it has bytes left, and how many retries have been made since the
      last one. */
  datatype Reading = Reading(
    ranges: bool, atEnd: bool, response: bool, bytes: bool, retries: nat, maxRetries: nat, length: nat,
    network: seq<Event>)
  {
    function Lost(retries: nat): Reading {
      this.(response := false, bytes := false, retries := retries, network := LaterEvents(network))
    }

    function Connected(): Reading {
      this.(response := true, bytes := true, retries := 0, network := LaterEvents(network))
    }

    /** One retry more can be made. */
    predicate CanRetry() {
      ranges && retries < maxRetries
    }
  }

  /** What is left when a read comes through: further events, and the retries made since the last response.
      Nothing, if it does not. A response that has ended or breaks is replaced by a new one, as often as retries
      allow, from the position where it was lost. */
  function ReadOn(r: Reading): Option<(seq<Event>, nat)>
    decreases |r.network|, if r.response then 1 else 0
  {
    if r.response then
      match FirstEvent(r.network).body
      case Gave(_) => if r.bytes then Some((LaterEvents(r.network), 0)) else ReadOn(r.Lost(r.retries))
      case Ended => ReadOn(r.Lost(r.retries))
      case Broke => if r.CanRetry() then ReadOn(r.Lost(r.retries + 1)) else None
    else if !r.ranges then None
    else if r.atEnd then Some((r.network, r.retries))
    else
      match FirstEvent(r.network).request
      case Answered(_, _) => if Accepted(r.network[0].request, r.length) then ReadOn(r.Connected()) else None
      case Refused(retryable) => if retryable && r.CanRetry() then ReadOn(r.Lost(r.retries + 1)) else None
  }

  /** Event `i` comes while a response is read; otherwise while one is requested. */
  predicate InResponse(r: Reading, i: nat)
    requires i <= |r.network|
  {
    if i == 0 then r.response else !InResponse(r, i - 1) && r.network[i - 1].request.Answered?
  }

  /** How many events before event `i` were trouble, since the last answer: broken bodies and refused
      requests. */
  function Troubles(r: Reading, i: nat): nat
    requires i <= |r.network|
  {
    if i == 0 then r.retries
    else if InResponse(r, i - 1) then Troubles(r, i - 1) + if r.network[i - 1].body.Broke? then 1 else 0
    else if r.network[i - 1].request.Answered? then 0
    else Troubles(r, i - 1) + 1
  }

  /** Event `i` gives bytes of a response that has some. */
  predicate GivesAt(r: Reading, i: nat) {
    i < |r.network| && InResponse(r, i) && r.network[i].body.Gave? && (i > 0 || r.bytes)
  }

  /** Event `i` can be survived: an answer is accepted; and what breaks or is refused may pass, and comes when
      there are retries left. */
  predicate Survivable(r: Reading, i: nat)
    requires i < |r.network|
  {
    if InResponse(r, i) then r.network[i].body.Broke? ==> Troubles(r, i) < r.maxRetries
    else match r.network[i].request
      case Answered(status, total) => status == 206 && (total == None || total == Some(r.length))
      case Refused(retryable) => retryable && Troubles(r, i) < r.maxRetries
  }

  ghost predicate ComesThrough(r: Reading, i: nat) {
    GivesAt(r, i) && forall j: nat :: j < i ==> Survivable(r, j)
  }

  /** A read within a file of which ranges can be requested comes through if and only if some event gives bytes
      and all events before can be survived: there are never more troubles in a row than retries. */
  lemma {:induction false} ReadsExactly(r: Reading)
    requires r.ranges && !r.atEnd
    ensures ReadOn(r) == None <==> forall i: nat :: !ComesThrough(r, i)
    ensures ReadOn(r).Some? ==> exists i: nat :: ComesThrough(r, i) && ReadOn(r) == Some((r.network[i + 1..], 0))
    decreases |r.network|
  {
    if r.network == [] {
      assert ReadOn(r) == None;
    } else if GivesAt(r, 0) {
      assert ComesThrough(r, 0);
    } else if Survivable(r, 0) {
      ReadsExactly(Following(r));
      ReadsOnLater(r);
      ComesThroughLater(r);
      if i: nat :| ComesThrough(Following(r), i) && ReadOn(r) == Some((Following(r).network[i + 1..], 0)) {
        assert r.network[1..][i + 1..] == r.network[i + 2..];
        assert ComesThrough(r, i + 1);
      }
    } else {
      forall i: nat
        ensures !ComesThrough(r, i)
      {
        NotSurvived(r, i);
      }
    }
  }

  /** Behind the first event, which can be survived and gives nothing. */
  function Following(r: Reading): Reading
    requires r.network != []
  {
    if !r.response && r.network[0].request.Answered? then r.Connected() else r.Lost(Troubles(r, 1))
  }

  lemma ReadsOnLater(r: Reading)
    requires r.ranges && !r.atEnd && r.network != [] && !GivesAt(r, 0) && Survivable(r, 0)
    ensures ReadOn(r) == ReadOn(Following(r))
  {
    TroublesAfterFirst(r);
    if r.response {
      ResponseLost(r);
    } else {
      RequestSurvived(r);
    }
  }

  lemma TroublesAfterFirst(r: Reading)
    requires r.network != []
    ensures Troubles(r, 1) == if r.response then r.retries + (if r.network[0].body.Broke? then 1 else 0)
                              else if r.network[0].request.Answered? then 0 else r.retries + 1
  {
    assert InResponse(r, 0) == r.response && Troubles(r, 0) == r.retries;
  }

  lemma ResponseLost(r: Reading)
    requires r.ranges && r.network != [] && r.response && (r.network[0].body.Gave? ==> !r.bytes)
    requires r.network[0].body.Broke? ==> r.retries < r.maxRetries
    ensures ReadOn(r) == ReadOn(r.Lost(r.retries + if r.network[0].body.Broke? then 1 else 0))
  {
  }

  lemma RequestSurvived(r: Reading)
    requires r.ranges && !r.atEnd && r.network != [] && !r.response && Survivable(r, 0)
    ensures ReadOn(r) == ReadOn(if r.network[0].request.Answered? then r.Connected() else r.Lost(r.retries + 1))
  {
  }

  lemma NotSurvived(r: Reading, i: nat)
    requires r.network != [] && !GivesAt(r, 0) && !Survivable(r, 0)
    ensures !ComesThrough(r, i)
  {
  }

  lemma {:induction false} SameLater(r: Reading, i: nat)
    requires r.network != [] && !GivesAt(r, 0) && i < |r.network|
    ensures InResponse(Following(r), i) == InResponse(r, i + 1) && Troubles(Following(r), i) == Troubles(r, i + 1)
  {
    if i > 0 {
      SameLater(r, i - 1);
    }
  }

  lemma ComesThroughLater(r: Reading)
    requires r.network != [] && !GivesAt(r, 0) && Survivable(r, 0)
    ensures forall i: nat :: ComesThrough(r, i) ==> i > 0 && ComesThrough(Following(r), i - 1)
    ensures forall i: nat :: ComesThrough(Following(r), i) ==> ComesThrough(r, i + 1)
  {
    var f := Following(r);
    forall i: nat | i + 1 < |r.network|
      ensures GivesAt(f, i) == GivesAt(r, i + 1) && Survivable(f, i) == Survivable(r, i + 1)
    {
      SameLater(r, i);
    }
    forall i: nat | ComesThrough(f, i)
      ensures ComesThrough(r, i + 1)
    {
      forall j: nat | j < i + 1
        ensures Survivable(r, j)
      {
        if j > 0 {
          assert Survivable(f, j - 1);
        }
      }
    }
  }

  /** How a request ends that is sent again and again after errors that may pass, and how many events it
      takes. Without further events, it is not answered. */
  function Attempts(maxRetries: nat, network: seq<Event>, retries: nat): (r: (Option<RequestEnd>, nat))
    ensures r.1 <= |network| && (r.0.Some? ==> r.0.value.Answered?)
    decreases |network|
  {
    if network == [] then (None, 0)
    else if network[0].request.Answered? then (Some(network[0].request), 1)
    else if !network[0].request.retryable || retries >= maxRetries then (None, 1)
    else
      var (end, used) := Attempts(maxRetries, network[1..], retries + 1);
      (end, used + 1)
  }

  /** The request is answered by event `i`: all before it are errors that may pass, and not too many. */
  ghost predicate AnsweredAt(maxRetries: nat, network: seq<Event>, retries: nat, i: nat) {
    i < |network| && network[i].request.Answered? && (i > 0 ==> retries + i <= maxRetries) &&
    forall j :: 0 <= j < i ==> network[j].request == Refused(true)
  }

  lemma ErrorsBefore(maxRetries: nat, network: seq<Event>, retries: nat, i: nat)
    requires AnsweredAt(maxRetries, network, retries, i)
    ensures i > 0 ==> retries < maxRetries && network[0].request == Refused(true)
  {
  }

  /** A request is answered if and only if an answer comes before an error that does not pass, and before
      the retries are used up; and then by the first answer. */
  lemma {:induction false} AnsweredExactly(maxRetries: nat, network: seq<Event>, retries: nat)
    ensures var (end, used) := Attempts(maxRetries, network, retries);
      (end.Some? ==>
        0 < used && AnsweredAt(maxRetries, network, retries, used - 1) && end.value == network[used - 1].request) &&
      (end == None ==> forall i: nat :: !AnsweredAt(maxRetries, network, retries, i))
    decreases |network|
  {
    if network != [] && network[0].request == Refused(true) && retries < maxRetries {
      AnsweredExactly(maxRetries, network[1..], retries + 1);
      forall i: nat | AnsweredAt(maxRetries, network, retries, i)
        ensures 0 < i && AnsweredAt(maxRetries, network[1..], retries + 1, i - 1)
      {
      }
    } else {
      forall i: nat | AnsweredAt(maxRetries, network, retries, i)
        ensures i == 0
      {
        ErrorsBefore(maxRetries, network, retries, i);
      }
    }
  }

  /** A read that requests a response comes through if the request is answered with the range, and the response
      is read. */
  lemma {:induction false} RequestsOn(r: Reading)
    requires r.ranges && !r.atEnd && !r.response && !r.bytes
    ensures var (end, used) := Attempts(r.maxRetries, r.network, r.retries);
      ReadOn(r) ==
        if end.Some? && Accepted(end.value, r.length)
        then ReadOn(r.(response := true, bytes := true, retries := 0, network := r.network[used..]))
        else None
    decreases |r.network|
  {
    if r.network != [] && r.network[0].request == Refused(true) && r.retries < r.maxRetries {
      RequestsOn(r.Lost(r.retries + 1));
    }
  }

  /** The situation after bytes have been skipped by reading from a response that has `rest` bytes left, or
      nothing if that fails: the response breaks when there are no retries left. */
  function SkipOn(r: Reading, length: nat, rest: nat): Option<Reading>
    decreases length
  {
    if length == 0 then Some(r.(bytes := rest > 0))
    else
      match FirstEvent(r.network).body
      case Ended => Some(r.Lost(r.retries))
      case Broke => if r.CanRetry() then Some(r.Lost(r.retries + 1)) else None
      case Gave(n) =>
        var size := Given(n, Min(length, SKIP_BUFFER_SIZE), rest);
        if size == 0 then Some(r.Lost(r.retries))
        else SkipOn(r.(network := LaterEvents(r.network)), length - size, rest - size)
  }

  /** How many bytes the first `n` events skip, if all of them give some. */
  function SkippedBy(network: seq<Event>, length: nat, rest: nat, n: nat): (skipped: nat)
    requires n <= |network|
    ensures skipped <= length && skipped <= rest
    decreases n
  {
    if n == 0 then 0
    else
      var before := SkippedBy(network, length, rest, n - 1);
      match network[n - 1].body
      case Gave(m) => before + Given(m, Min(length - before, SKIP_BUFFER_SIZE), rest - before)
      case _ => before
  }

  /** Event `i` gives bytes that are to be skipped. */
  ghost predicate GoesOn(network: seq<Event>, length: nat, rest: nat, i: nat) {
    i < |network| && network[i].body.Gave? && SkippedBy(network, length, rest, i) < length
  }

  /** Skipping stops behind `n` events, which all give bytes: all is skipped, or the next event gives none. */
  ghost predicate StopsAt(network: seq<Event>, length: nat, rest: nat, n: nat) {
    n <= |network| && (forall i: nat :: i < n ==> GoesOn(network, length, rest, i)) &&
    (SkippedBy(network, length, rest, n) == length || !FirstEvent(network[n..]).body.Gave?)
  }

  /** The situation when skipping has stopped there: the response goes on, or it has ended and is given up, or it
      has broken and is given up if there are retries left. */
  function Stopped(r: Reading, length: nat, rest: nat, n: nat): Option<Reading>
    requires n <= |r.network|
  {
    var later := r.(network := r.network[n..]);
    if SkippedBy(r.network, length, rest, n) == length then Some(later.(bytes := rest > length))
    else if FirstEvent(later.network).body.Ended? then Some(later.Lost(r.retries))
    else if r.CanRetry() then Some(later.Lost(r.retries + 1))
    else None
  }

  lemma {:induction false} SkippedLater(network: seq<Event>, length: nat, rest: nat, n: nat)
    requires n < |network| && network[0].body.Gave?
    ensures var size := Given(network[0].body.n, Min(length, SKIP_BUFFER_SIZE), rest);
      SkippedBy(network, length, rest, n + 1) == size + SkippedBy(network[1..], length - size, rest - size, n)
    decreases n
  {
    if n > 0 {
      SkippedLater(network, length, rest, n - 1);
    }
  }

  /** How many bytes the first event skips. */
  function SizeOfFirst(network: seq<Event>, length: nat, rest: nat): (size: nat)
    requires network != [] && network[0].body.Gave?
    ensures size <= length && size <= rest && (0 < length && 0 < rest ==> 0 < size)
  {
    Given(network[0].body.n, Min(length, SKIP_BUFFER_SIZE), rest)
  }

  lemma StopsLater(network: seq<Event>, length: nat, rest: nat, m: nat)
    requires network != [] && network[0].body.Gave? && 0 < length
    requires var size := SizeOfFirst(network, length, rest); StopsAt(network[1..], length - size, rest - size, m)
    ensures StopsAt(network, length, rest, m + 1)
  {
    var size, tail := SizeOfFirst(network, length, rest), network[1..];
    forall i: nat | i < m + 1
      ensures GoesOn(network, length, rest, i)
    {
      if i > 0 {
        SkippedLater(network, length, rest, i - 1);
        assert GoesOn(tail, length - size, rest - size, i - 1);
      }
    }
    SkippedLater(network, length, rest, m);
    assert tail[m..] == network[m + 1..];
  }

  lemma StoppedLater(r: Reading, length: nat, rest: nat, m: nat)
    requires r.network != [] && r.network[0].body.Gave? && m < |r.network|
    ensures var size := SizeOfFirst(r.network, length, rest);
      Stopped(r.(network := r.network[1..]), length - size, rest - size, m) == Stopped(r, length, rest, m + 1)
  {
    SkippedLater(r.network, length, rest, m);
    assert r.network[1..][m..] == r.network[m + 1..];
  }

  lemma SkipOnLater(r: Reading, length: nat, rest: nat)
    requires r.network != [] && r.network[0].body.Gave? && 0 < length && 0 < rest
    ensures var size := SizeOfFirst(r.network, length, rest);
      SkipOn(r, length, rest) == SkipOn(r.(network := r.network[1..]), length - size, rest - size)
  {
  }

  /** Skipping within a response stops where it should, and leaves the right situation. */
  lemma {:induction false} SkipsExactly(r: Reading, length: nat, rest: nat) returns (n: nat)
    requires length <= rest && r.response
    ensures StopsAt(r.network, length, rest, n) && SkipOn(r, length, rest) == Stopped(r, length, rest, n)
    decreases length
  {
    if length == 0 || !FirstEvent(r.network).body.Gave? {
      n := 0;
      assert r.network[0..] == r.network;
    } else {
      var size := SizeOfFirst(r.network, length, rest);
      var m := SkipsExactly(r.(network := r.network[1..]), length - size, rest - size);
      n := m + 1;
      StopsLater(r.network, length, rest, m);
      StoppedLater(r, length, rest, m);
      SkipOnLater(r, length, rest);
    }
  }

  /** An event without trouble. */
  predicate Smooth(e: Event, length: nat) {
    Accepted(e.request, length) && e.body.Gave?
  }

  ghost predicate AllSmooth(network: seq<Event>, length: nat) {
    forall e :: e in network ==> Smooth(e, length)
  }

  lemma SmoothReads(r: Reading)
    requires AllSmooth(r.network, r.length) && 3 <= |r.network|
    requires r.ranges || (r.response && r.bytes)
    ensures ReadOn(r).Some?
    ensures var rest := ReadOn(r).value.0; AllSmooth(rest, r.length) && |r.network| <= |rest| + 3
  {
    var lost := r.Lost(r.retries);
    assert r.network[0] in r.network && r.network[1] in r.network && r.network[2] in r.network;
    if r.response && !r.bytes && !r.atEnd {
      SmoothRequest(lost);
    } else if !r.response && !r.atEnd {
      SmoothRequest(r);
    }
  }

  lemma SmoothRequest(r: Reading)
    requires r.ranges && !r.response && !r.atEnd && 2 <= |r.network|
    requires Smooth(r.network[0], r.length) && Smooth(r.network[1], r.length)
    ensures ReadOn(r) == Some((r.network[2..], 0))
  {
    assert ReadOn(r.Connected()) == Some((r.network[2..], 0));
  }

  lemma {:induction false} SmoothSkips(r: Reading, length: nat, rest: nat)
    requires AllSmooth(r.network, r.length) && length <= |r.network| && length <= rest
    ensures var s := SkipOn(r, length, rest);
      s.Some? && s.value == r.(bytes := rest > length, network := s.value.network) &&
      AllSmooth(s.value.network, r.length) && |r.network| <= |s.value.network| + length
    decreases length
  {
    if length > 0 {
      assert r.network[0] in r.network;
      var size := Given(r.network[0].body.n, Min(length, SKIP_BUFFER_SIZE), rest);
      SmoothSkips(r.(network := r.network[1..]), length - size, rest - size);
    }
  }
}
