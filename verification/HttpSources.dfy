/** Streaming a file over HTTP, with lazy skips, range requests, dropped connections, and retries. */
module HttpSources {
  import opened Base
  import opened Outcomes
  import opened HttpEvents

  /** Ranges are requested with at least this length. */
  const MIN_CHUNK_SIZE: nat := 65536

  lemma SliceSplit(content: seq<byte>, from: nat, to: nat, a: seq<byte>, b: seq<byte>)
    requires from <= to <= |content| && content[from..to] == a + b
    ensures from + |a| <= to && a == content[from..from + |a|] && b == content[from + |a|..to]
  {
    assert a == content[from..to][..|a|] && b == content[from..to][|a|..];
  }

  class HttpSource {
    /** The file, as the server has it. */
    const content: seq<byte>
    const useRangeQueries: bool
    const contentLength: Option<nat>
    const maxRetries: nat
    var network: seq<Event>

    /** The bytes of the current response that are not read yet. */
    var currentResponse: Option<seq<byte>>
    var currentEnd: Option<nat>
    var nextChunkEnd: Option<nat>
    var currentPosition: nat
    var currentSkipped: nat
    var bytesRead: nat
    var bytesSkipped: nat
    var consecutiveRetries: nat
    /** Where the body of the current response ends in the file. */
    ghost var bodyEnd: nat

    /** Where the requested chunk ends in the file. */
    ghost function End(): nat
      reads this
    {
      if currentEnd.Some? then currentEnd.value else |content|
    }

    /** The position as the caller sees it, with skips that are still to be made. */
    ghost function Logical(): nat
      reads this
    {
      currentPosition + currentSkipped
    }

    ghost predicate Configured()
      reads this
    {
      (useRangeQueries ==> contentLength == Some(|content|)) && (useRangeQueries <==> currentEnd.Some?) &&
      End() <= |content| && consecutiveRetries <= maxRetries
    }

    /** The response has what the file has from the current position to the end of its body, which is not
        before the end of the requested chunk. */
    ghost predicate Following()
      reads this
    {
      currentResponse.Some? ==>
        currentPosition <= bodyEnd <= |content| && End() <= bodyEnd &&
        currentResponse.value == content[currentPosition..bodyEnd]
    }

    /** Every byte before the current position is counted, either as read or as skipped. */
    ghost predicate Consistent()
      reads this
    {
      Configured() && Following() && bytesRead + bytesSkipped == currentPosition
    }

    ghost predicate Valid()
      reads this
    {
      Consistent() && (!useRangeQueries ==> currentResponse.Some?)
    }

    /** The body of the response ends with the requested chunk, and the position is not behind it. Only a
        first response with more than the first chunk is not in step. */
    ghost predicate InStep()
      reads this
    {
      (currentResponse.Some? ==> bodyEnd == End()) && (currentPosition <= End() || |content| <= currentPosition)
    }

    /** Counting the bytes of a pending skip underflows: the position is behind the requested chunk. */
    ghost predicate Underflows()
      reads this
    {
      useRangeQueries && 0 < currentSkipped && End() < currentPosition
    }

    /** The caller has skipped beyond the end of the file. */
    ghost predicate Beyond()
      reads this
    {
      useRangeQueries && Logical() > |content|
    }

    /** The next read panics. */
    ghost predicate Panics()
      reads this
    {
      Underflows() || Beyond()
    }

    /** What a read has to do with, when no skip is pending. */
    ghost function Now(): Reading
      reads this
    {
      Reading(useRangeQueries, currentPosition == |content|, currentResponse.Some?,
              currentResponse.Some? && currentResponse.value != [], consecutiveRetries, maxRetries, |content|, network)
    }

    /** What a read has to do with after pending skips, or nothing if they fail. Beyond the chunk, the response is
        given up without reading. */
    ghost function AfterSkips(): Option<Reading>
      reads this
    {
      var reading := Now().(atEnd := Logical() == |content|);
      if currentSkipped == 0 || currentResponse == None then Some(reading)
      else if Exceeds() then Some(reading.(response := false, bytes := false))
      else SkipOn(reading, currentSkipped, |currentResponse.value|)
    }

    /** What is left when a read comes through, after pending skips. */
    ghost function AfterRead(): Option<(seq<Event>, nat)>
      reads this
    {
      if AfterSkips() == None then None else ReadOn(AfterSkips().value)
    }

    /** In step, only skipping beyond the end of the file makes the next read panic. */
    lemma PanicsInStep()
      requires Valid() && InStep()
      ensures Panics() <==> Beyond()
    {
    }

    /** The state behind the first response: for the first chunk, which ends at `end`, or for the whole
        file. */
    constructor (content: seq<byte>, contentLength: Option<nat>, maxRetries: nat, network: seq<Event>,
                 response: seq<byte>, end: Option<nat>)
      ensures this.content == content && this.contentLength == contentLength && this.maxRetries == maxRetries
      ensures this.network == network && currentResponse == Some(response) && currentEnd == end
      ensures useRangeQueries == end.Some? && nextChunkEnd == None && consecutiveRetries == 0 && bodyEnd == |response|
      ensures currentPosition == currentSkipped == bytesRead == bytesSkipped == 0
    {
      this.content, this.contentLength, this.maxRetries, this.network := content, contentLength, maxRetries, network;
      useRangeQueries, currentResponse, currentEnd := end.Some?, Some(response), end;
      nextChunkEnd, currentPosition, currentSkipped, bytesRead, bytesSkipped, consecutiveRetries := None, 0, 0, 0, 0, 0;
      bodyEnd := |response|;
    }

    /** What the network does next. */
    method NextEvent() returns (e: Event)
      modifies this`network
      ensures e == FirstEvent(old(network)) && network == LaterEvents(old(network))
    {
      if network == [] {
        return Event(Refused(false), Broke);
      }
      e := network[0];
      network := network[1..];
    }

    /** Read from the body of the current response. */
    method ReadBody(capacity: nat) returns (r: Outcome<seq<byte>>)
      requires currentResponse.Some? && 0 < capacity
      modifies this`network, this`currentResponse
      ensures network == LaterEvents(old(network)) && currentResponse.Some? && !r.Panicked?
      ensures r.Done? ==> old(currentResponse).value == r.value + currentResponse.value && |r.value| <= capacity
      ensures r.Failed? ==> currentResponse == old(currentResponse)
      ensures match FirstEvent(old(network)).body
        case Broke => r == Failed
        case Ended => r == Done([])
        case Gave(n) => r.Done? && |r.value| == Given(n, capacity, |old(currentResponse).value|)
    {
      var e := NextEvent();
      match e.body {
        case Broke => return Failed;
        case Ended => return Done([]);
        case Gave(n) =>
          var rest := currentResponse.value;
          var size := Given(n, capacity, |rest|);
          currentResponse := Some(rest[size..]);
          return Done(rest[..size]);
      }
    }

    /** Request a range of the file, again and again after errors that may pass. */
    method FetchRangeWithRetry(start: nat, end: nat) returns (r: Outcome<seq<byte>>)
      requires start < end <= |content| && contentLength == Some(|content|) && consecutiveRetries <= maxRetries
      modifies this`network, this`consecutiveRetries
      ensures r.Done? ==> r.value == content[start..end] && consecutiveRetries == 0
      ensures var (end, used) := Attempts(maxRetries, old(network), old(consecutiveRetries));
        (r.Done? <==> end.Some? && Accepted(end.value, |content|)) && network == old(network)[used..]
      ensures consecutiveRetries <= maxRetries && !r.Panicked?
    {
      while true
        invariant consecutiveRetries <= maxRetries && |network| <= |old(network)|
        invariant network == old(network)[|old(network)| - |network|..]
        invariant Attempts(maxRetries, old(network), old(consecutiveRetries)) ==
          var (end, more) := Attempts(maxRetries, network, consecutiveRetries);
          (end, |old(network)| - |network| + more)
        decreases |network|
      {
        var e := NextEvent();
        match e.request {
          case Answered(status, total) =>
            consecutiveRetries := 0;
            if status != 206 {
              return Failed;
            }
            if total.Some? && total != contentLength {
              return Failed;
            }
            return Done(content[start..end]);
          case Refused(retryable) =>
            if !retryable || consecutiveRetries >= maxRetries {
              return Failed;
            }
            consecutiveRetries := consecutiveRetries + 1;
        }
      }
    }

    /** Skip within the current response, by reading. How many bytes could not be read is returned;
        then the response is given up. */
    method SkipByReading(length: nat) returns (r: Outcome<nat>)
      requires currentResponse.Some? && consecutiveRetries <= maxRetries
      modifies this`network, this`currentResponse, this`consecutiveRetries
      ensures consecutiveRetries <= maxRetries && !r.Panicked?
      ensures r.Done? ==> r.value <= length
      ensures r.Done? && currentResponse.Some? ==>
        r.value == 0 && length <= |old(currentResponse).value| &&
        currentResponse.value == old(currentResponse).value[length..]
      ensures match SkipOn(old(Now()), length, |old(currentResponse).value|)
        case None => r == Failed
        case Some(reading) => r.Done? && Now() == reading
    {
      var remaining: nat := length;
      ghost var skipped: nat := 0;
      while remaining > 0
        invariant skipped + remaining == length && consecutiveRetries <= maxRetries
        invariant currentResponse.Some? && skipped <= |old(currentResponse).value|
        invariant currentResponse.value == old(currentResponse).value[skipped..]
        invariant SkipOn(old(Now()), length, |old(currentResponse).value|)
               == SkipOn(Now(), remaining, |currentResponse.value|)
      {
        var read := ReadBody(Min(remaining, SKIP_BUFFER_SIZE));
        if read.Failed? {
          if useRangeQueries && consecutiveRetries < maxRetries {
            consecutiveRetries := consecutiveRetries + 1;
            currentResponse := None;
            return Done(remaining);
          }
          return Failed;
        }
        if read.value == [] {
          currentResponse := None;
          return Done(remaining);
        }
        remaining := remaining - |read.value|;
        skipped := skipped + |read.value|;
      }
      assert skipped == length;
      return Done(0);
    }

    /** A pending skip goes beyond the chunk. */
    ghost predicate Exceeds()
      reads this
    {
      0 < currentSkipped && useRangeQueries && Logical() >= End()
    }

    /** Make the skips asked for since the last read. Bytes beyond the chunk, or without a response, are not
        downloaded; those skipped in a response that goes on all are. */
    method MakeSkips() returns (r: Outcome<()>)
      requires Valid()
      modifies this
      ensures nextChunkEnd == old(nextChunkEnd) && currentEnd == old(currentEnd)
      ensures r.Panicked? <==> old(Underflows())
      ensures old(Beyond()) ==> !r.Failed?
      ensures r.Done? ==> Consistent() && currentSkipped == 0 && currentPosition == old(Logical())
      ensures old(currentSkipped) == 0 ==>
        r.Done? && currentResponse == old(currentResponse) && network == old(network)
      ensures r.Done? && old(Exceeds()) ==> bytesSkipped == old(bytesSkipped) + (old(Logical()) - old(End()))
      ensures r.Done? && old(currentResponse) == None && !old(Exceeds()) ==>
        bytesSkipped == old(bytesSkipped) + old(currentSkipped)
      ensures r.Done? && currentResponse.Some? ==> bytesSkipped == old(bytesSkipped)
      ensures r.Done? && old(InStep()) ==> currentResponse.Some? ==> InStep()
      ensures !old(Underflows()) ==> match old(AfterSkips())
        case None => r == Failed
        case Some(reading) => r == Done(()) && Now() == reading
    {
      if currentSkipped == 0 {
        return Done(());
      }
      currentPosition := currentPosition + currentSkipped;
      if currentEnd.Some? && currentPosition >= currentEnd.value {
        currentResponse := None;
        var actuallySkipped := currentPosition - currentEnd.value;
        if actuallySkipped > currentSkipped {
          // The subtraction below would underflow.
          return Panicked;
        }
        bytesSkipped := bytesSkipped + actuallySkipped;
        bytesRead := bytesRead + (currentSkipped - actuallySkipped);
      } else if currentResponse.Some? {
        assert |currentResponse.value| == bodyEnd - old(currentPosition);
        var remaining :- SkipByReading(currentSkipped);
        bytesRead := bytesRead + (currentSkipped - remaining);
        bytesSkipped := bytesSkipped + remaining;
      } else {
        bytesSkipped := bytesSkipped + currentSkipped;
      }
      currentSkipped := 0;
      return Done(());
    }

    /** Where the next chunk ends: far enough for the minimum size, the bytes wanted, and the hint, within the
        file. */
    ghost function Wanted(capacity: nat): nat
      reads this
    {
      var least := currentPosition + Max(MIN_CHUNK_SIZE, capacity);
      Min(if nextChunkEnd.Some? then Max(least, nextChunkEnd.value) else least, |content|)
    }

    /** Request the next chunk, unless everything is read. */
    method NextChunk(capacity: nat) returns (r: Outcome<()>)
      requires Consistent() && currentResponse == None && currentSkipped == 0 && useRangeQueries
      modifies this`network, this`currentResponse, this`currentEnd, this`nextChunkEnd, this`consecutiveRetries
      modifies this`bodyEnd
      ensures r.Panicked? <==> old(currentPosition) > |content|
      ensures r.Done? ==> Consistent() && currentPosition <= |content| && (currentResponse.Some? ==> InStep())
      ensures r.Done? ==> if currentPosition == |content| then currentResponse == None && network == old(network)
        else currentResponse.Some? && currentResponse.value != [] && |network| < |old(network)|
      ensures r.Done? && currentPosition < |content| ==>
        nextChunkEnd == None && currentEnd == Some(old(Wanted(capacity))) &&
        Min(currentPosition + Max(65536, capacity), |content|) <= End() &&
        (old(nextChunkEnd).Some? ==> Min(old(nextChunkEnd).value, |content|) <= End())
      ensures if currentPosition < |content| then ReadOn(old(Now())) == (if r.Done? then ReadOn(Now()) else None)
              else !r.Failed? && consecutiveRetries == old(consecutiveRetries)
    {
      if currentPosition < |content| {
        RequestsOn(Now());
      }
      var hint := if nextChunkEnd.Some? then nextChunkEnd.value else 0;
      var nextEnd := Min(Max(currentPosition + Max(MIN_CHUNK_SIZE, capacity), hint), contentLength.value);
      nextChunkEnd := None;
      if currentPosition == nextEnd {
        if currentPosition != contentLength.value {
          // The assertion that the file has ended fails.
          return Panicked;
        }
        return Done(());
      }
      if currentPosition > nextEnd {
        // The assertion that the next chunk is not empty fails.
        return Panicked;
      }
      var response :- FetchRangeWithRetry(currentPosition, nextEnd);
      currentResponse := Some(response);
      currentEnd := Some(nextEnd);
      bodyEnd := nextEnd;
      return Done(());
    }

    /** Whether there is something to read for the caller: with range requests, also the fact that
        the file has ended. */
    ghost predicate Within()
      reads this
    {
      if useRangeQueries then Logical() <= |content| else Logical() < |content|
    }

    /** There is something to read, and at least `events` events will come, without trouble. */
    ghost predicate Smoothly(events: nat)
      reads this
    {
      AllSmooth(network, |content|) && Within() && events <= |network|
    }

    /** When the network gives no trouble, a read comes through. */
    lemma SmoothlyReads()
      requires Valid() && Smoothly(currentSkipped + 3) && !Underflows()
      ensures AfterRead().Some?
      ensures var rest := AfterRead().value.0; AllSmooth(rest, |content|) && |network| <= |rest| + currentSkipped + 3
    {
      var reading := Now().(atEnd := Logical() == |content|);
      if currentSkipped == 0 || currentResponse == None || (useRangeQueries && Logical() >= End()) {
        SmoothReads(AfterSkips().value);
      } else {
        SmoothSkips(reading, currentSkipped, |currentResponse.value|);
        SmoothReads(AfterSkips().value);
      }
    }

    /** The next bytes come from the current response. */
    ghost predicate WillGive()
      reads this
    {
      currentResponse.Some? && currentResponse.value != [] && network != [] && network[0].body.Gave?
    }

    ghost function Coming(capacity: nat): nat
      reads this
      requires WillGive()
    {
      Given(network[0].body.n, capacity, |currentResponse.value|)
    }

    /** One attempt to read, with a new request if there is no response. Without a result, the
        response has ended or was given up. */
    method Attempt(capacity: nat) returns (r: Outcome<Option<seq<byte>>>)
      requires Consistent() && currentSkipped == 0 && 0 < capacity
      modifies this
      ensures r.Panicked? <==> useRangeQueries && old(currentPosition) > |content|
      ensures r.Done? ==> Consistent() && currentSkipped == 0 && bytesSkipped == old(bytesSkipped)
      ensures r.Done? && (old(currentResponse).Some? ==> old(InStep())) && currentResponse.Some? ==> InStep()
      ensures old(WillGive()) ==> r.Done? && r.value.Some? && |r.value.value| == old(Coming(capacity))
      ensures old(WillGive()) ==> network == old(network)[1..] && currentEnd == old(currentEnd)
      ensures r == Done(None) ==> currentPosition == old(currentPosition) && currentResponse == None
      ensures r == Done(None) ==> |network| < |old(network)| || (network == old(network) && old(currentResponse).Some?)
      ensures r.Done? && r.value.Some? ==>
        old(currentPosition) <= |content| && (|content| == currentPosition || currentResponse.Some?)
      ensures r.Done? && r.value.Some? && !useRangeQueries ==> currentResponse.Some?
      ensures r.Done? && r.value.Some? ==> Returned(old(currentPosition), capacity, r.value.value)
      ensures r == Done(Some([])) ==> useRangeQueries
      ensures r.Done? && old(currentResponse) == None && useRangeQueries && old(currentPosition) < |content| ==>
        currentEnd == Some(old(Wanted(capacity)))
      ensures old(currentPosition) <= |content| ==> match r
        case Done(None) => ReadOn(old(Now())) == ReadOn(Now())
        case Done(Some(_)) => ReadOn(old(Now())) == Some((network, consecutiveRetries))
        case _ => ReadOn(old(Now())) == None
    {
      if currentResponse == None {
        if !useRangeQueries {
          return Failed;
        }
        var _ :- NextChunk(capacity);
        if currentResponse == None {
          return Done(Some([]));
        }
      }
      r := ReadResponse(capacity);
    }

    /** Read from the current response. */
    method ReadResponse(capacity: nat) returns (r: Outcome<Option<seq<byte>>>)
      requires Consistent() && currentSkipped == 0 && 0 < capacity && currentResponse.Some?
      modifies this`network, this`currentResponse, this`consecutiveRetries, this`bytesRead, this`currentPosition
      ensures !r.Panicked?
      ensures r.Done? ==> Consistent() && (old(InStep()) && currentResponse.Some? ==> InStep())
      ensures old(WillGive()) ==>
        r.Done? && r.value.Some? && |r.value.value| == old(Coming(capacity)) && network == old(network)[1..]
      ensures r == Done(None) ==> currentPosition == old(currentPosition) && currentResponse == None
      ensures |network| < |old(network)| || network == old(network)
      ensures r.Done? && r.value.Some? ==>
        currentResponse.Some? && Returned(old(currentPosition), capacity, r.value.value) && r.value.value != []
      ensures match r
        case Done(None) => ReadOn(old(Now())) == ReadOn(Now())
        case Done(Some(_)) => ReadOn(old(Now())) == Some((network, consecutiveRetries))
        case _ => ReadOn(old(Now())) == None
    {
      var read := ReadBody(capacity);
      if read.Failed? {
        if !useRangeQueries || consecutiveRetries >= maxRetries {
          return Failed;
        }
        consecutiveRetries := consecutiveRetries + 1;
        currentResponse := None;
        return Done(None);
      }
      if read.value == [] {
        currentResponse := None;
        return Done(None);
      }
      SliceSplit(content, currentPosition, bodyEnd, read.value, currentResponse.value);
      consecutiveRetries := 0;
      bytesRead := bytesRead + |read.value|;
      currentPosition := currentPosition + |read.value|;
      return Done(Some(read.value));
    }

    /** The given bytes of the file were read, and none only at its end. */
    ghost predicate Returned(from: nat, capacity: nat, bytes: seq<byte>)
      reads this
    {
      currentPosition == from + |bytes| <= |content| && |bytes| <= capacity &&
      bytes == content[from..currentPosition] &&
      (bytes == [] ==> from == |content|)
    }

    /** Read some bytes, and none only at the end of the file. What is read is what the file has at
        the position of the caller, whatever the network did. When it gave no trouble, reading
        succeeds. Reading panics exactly if a pending skip underflows, or the caller has skipped beyond the
        end of the file. */
    method Read(capacity: nat) returns (r: Outcome<seq<byte>>)
      requires Valid() && 0 < capacity
      modifies this
      ensures r.Panicked? <==> old(Panics())
      ensures old(InStep()) ==> (r.Panicked? <==> old(Beyond()))
      ensures r.Done? ==> Valid() && currentSkipped == 0 && Returned(old(Logical()), capacity, r.value)
      ensures r.Done? && old(InStep()) ==> InStep()
      ensures r.Done? && old(currentSkipped) == 0 ==> bytesSkipped == old(bytesSkipped)
      ensures r == Done([]) ==> useRangeQueries
      ensures !old(Panics()) ==> match old(AfterRead())
        case None => r == Failed
        case Some(left) => r.Done? && left == (network, consecutiveRetries)
      ensures old(currentSkipped == 0 && WillGive()) ==> r.Done? && |r.value| == old(Coming(capacity))
      ensures old(currentSkipped == 0 && WillGive()) ==>
        network == old(network)[1..] && currentEnd == old(currentEnd)
    {
      if InStep() {
        PanicsInStep();
      }
      ghost var through := AfterRead();
      ghost var given, inStep := currentSkipped == 0 && WillGive(), InStep();
      var _ :- MakeSkips();
      while true
        invariant Consistent() && currentSkipped == 0 && currentPosition == old(Logical())
        invariant old(currentSkipped) == 0 ==> bytesSkipped == old(bytesSkipped)
        invariant currentPosition <= |content| ==> through == ReadOn(Now())
        invariant inStep && currentResponse.Some? ==> InStep()
        invariant given ==>
          currentResponse == old(currentResponse) && network == old(network) && currentEnd == old(currentEnd)
        decreases |network|, if currentResponse.Some? then 1 else 0
      {
        var attempt :- Attempt(capacity);
        if attempt.Some? {
          return Done(attempt.value);
        }
      }
    }

    method HintNextChunk(length: nat)
      requires Valid()
      modifies this`nextChunkEnd
      ensures Valid() && Logical() == old(Logical())
      ensures nextChunkEnd == if length == 0 then old(nextChunkEnd) else Some(currentPosition + length)
    {
      if length != 0 {
        nextChunkEnd := Some(currentPosition + length);
      }
    }

    /** Skip bytes. Nothing happens before the next read. */
    method Skip(length: nat)
      requires Valid()
      modifies this`currentSkipped
      ensures Valid() && Logical() == old(Logical()) + length
    {
      currentSkipped := currentSkipped + length;
    }

    /** How many bytes were read or skipped: this is always the position of the caller. */
    method BytesRead() returns (n: nat)
      requires Valid()
      ensures n == Logical()
    {
      return bytesRead + bytesSkipped + currentSkipped;
    }

    /** Read exactly the given number of bytes, in as many reads as it takes. */
    method ReadExact(length: nat) returns (r: Outcome<seq<byte>>)
      requires Valid()
      modifies this
      ensures r.Panicked? <==> 0 < length && old(Panics())
      ensures r.Done? ==> Valid() && Logical() == old(Logical()) + length
      ensures r.Done? && 0 < length ==> Logical() <= |content| && r.value == content[old(Logical())..Logical()]
      ensures old(Smoothly(currentSkipped + 3 * length) && !Underflows() && Logical() + length <= |content|) ==> r.Done?
    {
      var bytes: seq<byte> := [];
      ghost var from, smooth := Logical(), Smoothly(currentSkipped + 3 * length) && Logical() + length <= |content|;
      while |bytes| < length
        invariant Valid() && Logical() == from + |bytes| && |bytes| <= length
        invariant bytes != [] ==> Logical() <= |content| && bytes == content[from..Logical()]
        invariant smooth && !old(Underflows()) ==>
          !Underflows() && AllSmooth(network, |content|) && currentSkipped + 3 * (length - |bytes|) <= |network|
        invariant if bytes == [] then Panics() == old(Panics()) else !Panics() && !old(Panics())
        decreases length - |bytes|
      {
        if smooth && !Underflows() {
          SmoothlyReads();
        }
        var chunk :- Read(length - |bytes|);
        if chunk == [] {
          return Failed;
        }
        bytes := bytes + chunk;
      }
      return Done(bytes);
    }
  }

  /** Send a request again and again after errors that may pass, and tell how many events it took. */
  method GetWithRetry(maxRetries: nat, network: seq<Event>) returns (r: Option<RequestEnd>, used: nat)
    ensures (r, used) == Attempts(maxRetries, network, 0)
  {
    used := 0;
    while used < |network|
      invariant used <= |network| && used <= maxRetries
      invariant Attempts(maxRetries, network, 0) ==
        var (end, more) := Attempts(maxRetries, network[used..], used); (end, used + more)
    {
      var end := network[used].request;
      assert network[used..][1..] == network[used + 1..];
      used := used + 1;
      if end.Answered? {
        return Some(end), used;
      }
      if !end.retryable || used > maxRetries {
        return None, used;
      }
    }
    return None, used;
  }

  /** What opening a file learns from the network: the length the server tells, how the request for the
      first chunk or the whole file ends, and what the network does then. */
  datatype Opening = Opening(told: Option<nat>, first: Option<RequestEnd>, network: seq<Event>)

  function OpeningOf(useRangeQueries: bool, maxRetries: nat, network: seq<Event>): Opening {
    var (probe, used) := if useRangeQueries then Attempts(maxRetries, network, 0) else (None, 0);
    var told := if probe.Some? then probe.value.total else None;
    var (first, more) := Attempts(maxRetries, network[used..], 0);
    Opening(told, first, network[used..][more..])
  }

  /** Open a file on a server. Range requests are used if the server tells the length of the file when it
      is asked for its first byte. The response to the request for the first chunk is not checked. So the
      source follows the file if and only if the length is right; and then it is in step if and only if the
      server has answered with the range or the file is no longer than the chunk. For a file of length
      zero, the subtraction in the first range underflows. */
  method Open(content: seq<byte>, useRangeQueries: bool, maxRetries: nat, network: seq<Event>)
    returns (r: Outcome<HttpSource>)
    ensures var o := OpeningOf(useRangeQueries, maxRetries, network);
      (r.Panicked? <==> o.told == Some(0)) && (r.Failed? <==> o.told != Some(0) && o.first == None)
    ensures r.Done? ==>
      Starts(r.value, content, maxRetries, OpeningOf(useRangeQueries, maxRetries, network)) && fresh(r.value)
  {
    var rest, told := network, None;
    if useRangeQueries {
      var probe, used := GetWithRetry(maxRetries, rest);
      rest := rest[used..];
      if probe.Some? {
        told := probe.value.total;
      }
    }
    if told == Some(0) {
      return Panicked;
    }
    var response, used := GetWithRetry(maxRetries, rest);
    rest := rest[used..];
    if response == None {
      return Failed;
    }
    var source;
    if told == None {
      source := new HttpSource(content, None, maxRetries, rest, content, None);
    } else {
      var end := Min(MIN_CHUNK_SIZE, told.value);
      var body := if response.value.status == 206 then content[..Min(end, |content|)] else content;
      source := new HttpSource(content, told, maxRetries, rest, body, Some(end));
    }
    return Done(source);
  }

  /** The source is at the start of the file, behind the first response. */
  ghost predicate Starts(source: HttpSource, content: seq<byte>, maxRetries: nat, o: Opening)
    reads source
  {
    o.first.Some? && o.told != Some(0) &&
    source.content == content && source.maxRetries == maxRetries && source.network == o.network &&
    source.useRangeQueries == o.told.Some? && source.currentPosition == 0 && source.currentSkipped == 0 &&
    source.currentEnd == (if o.told == None then None else Some(Min(MIN_CHUNK_SIZE, o.told.value))) &&
    source.currentResponse == Some(FirstBody(content, o)) &&
    (source.Valid() <==> o.told == None || o.told == Some(|content|)) &&
    (source.Valid() ==> (source.InStep() <==> o.told == None || IsRange(o.first.value) || |content| <= MIN_CHUNK_SIZE))
  }

  function FirstBody(content: seq<byte>, o: Opening): seq<byte>
    requires o.first.Some?
  {
    if o.told.Some? && IsRange(o.first.value)
    then content[..Min(Min(MIN_CHUNK_SIZE, o.told.value), |content|)]
    else content
  }

  predicate IsRange(end: RequestEnd) {
    end.Answered? && end.status == 206
  }

  /** A server that tells the right length, answers the request for the first chunk with the whole file, and
      then gives `n` bytes. */
  function WholeFile(length: nat, n: nat): seq<Event> {
    [Event(Answered(206, Some(length)), Ended), Event(Answered(200, None), Ended), Event(Refused(false), Gave(n))]
  }

  /** With the whole file as the first response, reading beyond the first chunk and then skipping makes the
      next read panic, well within the file. */
  method SkipAfterWholeFile(content: seq<byte>, n: nat, skip: nat) returns (r: Outcome<seq<byte>>)
    requires MIN_CHUNK_SIZE < n && 0 < skip && n + skip < |content|
    ensures r.Panicked?
  {
    var network := WholeFile(|content|, n);
    var start := Open(content, true, 0, network);
    WholeFileOpened(|content|, n);
    var source := start.value;
    var bytes := source.Read(n);
    source.Skip(skip);
    r := source.Read(1);
  }

  lemma WholeFileOpened(length: nat, n: nat)
    ensures OpeningOf(true, 0, WholeFile(length, n))
         == Opening(Some(length), Some(Answered(200, None)), [Event(Refused(false), Gave(n))])
  {
    var network := WholeFile(length, n);
    assert network[1..] == [network[1], network[2]];
    assert network[1..][1..] == [network[2]];
  }
}
