/** `src/core/buffer.cc` and `src/core/connection.cc`; the kernel's answers to
    recv and send are given as sequences. */
module Connections {
  import opened Strings
  import opened Framing

  class Buffer {
    var buf: string

    constructor ()
      ensures buf == ""
    {
      buf := "";
    }

    method PushBack(data: string)
      modifies this
      ensures buf == old(buf) + data
    {
      buf := buf + data;
    }

    method Clear()
      modifies this
      ensures buf == ""
    {
      buf := "";
    }

    /** The text up to and including the first `target`, cut off the front. */
    method FindAndPopTill(target: string) returns (r: Option<string>)
      modifies this
      ensures r.None? ==> !Contains(old(buf), target) && buf == old(buf)
      ensures r.Some? ==> old(buf) == r.value + buf && Find(old(buf), target) == Some(|r.value| - |target|)
    {
      var pos := Find(buf, target);
      FindNone(buf, target);
      r := None;
      if pos.Some? {
        r := Some(buf[..pos.value + |target|]);
        buf := buf[pos.value + |target|..];
      }
    }
  }

  // ------------------------------------------------------------ Kernel answers

  type Positive = n: nat | n > 0 witness 1

  /** What one `send` answers: some bytes taken, or none with an errno that asks to
      try again or does not. */
  datatype SendResult = Took(n: Positive) | Refused(again: bool)

  datatype Outcome = Delivered | Dropped | StillTrying

  /** How a `Send` of `data` ends: how many bytes reached the socket, how, and
      which answers were not needed. */
  datatype SendEnd = SendEnd(sent: nat, outcome: Outcome, rest: seq<SendResult>)

  function Min(a: nat, b: nat): nat { if a < b then a else b }

  function Sending(data: string, results: seq<SendResult>): (e: SendEnd)
    ensures e.sent <= |data|
    ensures e.outcome.Delivered? <==> e.sent == |data|
    ensures e.outcome.StillTrying? ==> e.rest == []
    decreases results
  {
    if data == "" then SendEnd(0, Delivered, results)
    else if results == [] then SendEnd(0, StillTrying, [])
    else match results[0]
      case Took(n) =>
        var m := Min(n, |data|);
        var e := Sending(data[m..], results[1..]);
        e.(sent := m + e.sent)
      case Refused(again) =>
        if again then Sending(data, results[1..]) else SendEnd(0, Dropped, results[1..])
  }

  /** Bytes the kernel is ready to take in answers none of which is fatal. */
  function Offered(results: seq<SendResult>): nat {
    if results == [] then 0
    else (if results[0].Took? then results[0].n else 0) + Offered(results[1..])
  }

  ghost predicate NoFatal(results: seq<SendResult>) {
    forall i :: 0 <= i < |results| ==> results[i] != Refused(false)
  }

  /** All bytes go out exactly when enough is taken before a fatal answer. */
  lemma {:induction false} DeliveredIff(data: string, results: seq<SendResult>)
    ensures Sending(data, results).outcome.Delivered? <==>
            exists k :: 0 <= k <= |results| && NoFatal(results[..k]) && Offered(results[..k]) >= |data|
    decreases results
  {
    if data == "" {
      assert NoFatal(results[..0]) && Offered(results[..0]) == 0;
    } else if results != [] {
      var tail := results[1..];
      var left := if results[0].Took? then data[Min(results[0].n, |data|)..] else data;
      DeliveredIff(left, tail);
      forall k | 1 <= k <= |results|
        ensures NoFatal(results[..k]) <==> results[0] != Refused(false) && NoFatal(tail[..k - 1])
        ensures Offered(results[..k]) == (if results[0].Took? then results[0].n else 0) + Offered(tail[..k - 1]) {
        assert results[..k] == [results[0]] + tail[..k - 1];
        assert results[..k][0] == results[0] && results[..k][1..] == tail[..k - 1];
        NoFatalCons(results[0], tail[..k - 1]);
      }
      if k :| 0 <= k <= |results| && NoFatal(results[..k]) && Offered(results[..k]) >= |data| {
        assert k > 0;
        assert NoFatal(tail[..k - 1]) && Offered(tail[..k - 1]) >= |left|;
      }
      if results[0] != Refused(false) {
        if k :| 0 <= k <= |tail| && NoFatal(tail[..k]) && Offered(tail[..k]) >= |left| {
          assert NoFatal(results[..k + 1]) && Offered(results[..k + 1]) >= |data|;
        }
      }
    }
  }

  lemma NoFatalCons(r: SendResult, rs: seq<SendResult>)
    ensures NoFatal([r] + rs) <==> r != Refused(false) && NoFatal(rs)
  {
    assert ([r] + rs)[0] == r;
    assert forall i :: 0 <= i < |rs| ==> ([r] + rs)[i + 1] == rs[i];
  }

  /** The place of the first answer after which `Send` gives up. */
  function FirstFatal(results: seq<SendResult>): (k: nat)
    ensures k <= |results| && NoFatal(results[..k]) && (k < |results| ==> results[k] == Refused(false))
  {
    if results == [] || results[0] == Refused(false) then 0
    else
      var k := FirstFatal(results[1..]);
      assert results[..k + 1] == [results[0]] + results[1..][..k];
      NoFatalCons(results[0], results[1..][..k]);
      k + 1
  }

  /** The answers that a `Send` of `n` bytes uses up: the fewest that take them all. */
  ghost predicate TakenBy(n: nat, results: seq<SendResult>, used: nat) {
    && used <= |results| && n <= Offered(results[..used])
    && forall i :: 0 <= i < used ==> Offered(results[..i]) < n
  }

  /** How a `Send` ends, told by the kernel's answers alone: what is offered before
      the first fatal answer goes out, as far as there are bytes; it returns with
      bytes dropped exactly when a fatal answer comes before enough was offered, and
      goes on trying exactly when neither came. */
  lemma {:induction false} SendEnds(data: string, results: seq<SendResult>)
    ensures var e := Sending(data, results);
            var k := FirstFatal(results);
            var offered := Offered(results[..k]);
            && e.sent == Min(|data|, offered)
            && (e.outcome.Delivered? <==> |data| <= offered)
            && (e.outcome.Dropped? <==> offered < |data| && k < |results|)
            && (e.outcome.StillTrying? <==> offered < |data| && k == |results|)
    decreases results
  {
    if data != "" && results != [] && results[0] != Refused(false) {
      SendEnds(AfterFirst(data, results[0]), results[1..]);
      OfferedCons(results, FirstFatal(results));
    }
  }

  lemma StillTryingIff(data: string, results: seq<SendResult>)
    ensures Sending(data, results).outcome.StillTrying? <==> NoFatal(results) && Offered(results) < |data|
  {
    hide Sending, Offered;
    SendEnds(data, results);
    assert results[..|results|] == results;
  }

  /** What the next answer finds still to send. */
  function AfterFirst(data: string, answer: SendResult): string {
    if answer.Took? then data[Min(answer.n, |data|)..] else data
  }

  /** Which answers are left for the next `Send`: those after the fatal one, or after
      the fewest that take all the bytes. */
  lemma {:induction false} SendLeaves(data: string, results: seq<SendResult>)
    ensures var e := Sending(data, results);
            var k := FirstFatal(results);
            && (e.outcome.Dropped? ==> k < |results| && e.rest == results[k + 1..])
            && (e.outcome.Delivered? ==>
                  exists used: nat :: used <= k && TakenBy(|data|, results, used) && e.rest == results[used..])
    decreases results
  {
    hide Offered;
    if data == "" {
      NothingToTake(results);
    } else if results != [] && results[0] != Refused(false) {
      var k, tail, left := FirstFatal(results), results[1..], AfterFirst(data, results[0]);
      SendLeaves(left, tail);
      if Sending(left, tail).outcome.Dropped? {
        assert tail[k..] == results[k + 1..];
      }
      if Sending(left, tail).outcome.Delivered? {
        var u: nat :| u <= k - 1 && TakenBy(|left|, tail, u) && Sending(left, tail).rest == tail[u..];
        TakenByOneMore(data, results, u);
        assert tail[u..] == results[u + 1..];
      }
    }
  }

  lemma NothingToTake(results: seq<SendResult>)
    ensures TakenBy(0, results, 0) && results[0..] == results
  {
  }

  lemma OfferedCons(results: seq<SendResult>, k: nat)
    requires 0 < k <= |results|
    ensures Offered(results[..k]) == (if results[0].Took? then results[0].n else 0) + Offered(results[1..][..k - 1])
  {
    assert results[..k] == [results[0]] + results[1..][..k - 1];
  }

  lemma TakenByOneMore(data: string, results: seq<SendResult>, u: nat)
    requires data != "" && results != [] && TakenBy(|AfterFirst(data, results[0])|, results[1..], u)
    ensures TakenBy(|data|, results, u + 1)
  {
    OfferedCons(results, u + 1);
    forall i | 0 <= i < u + 1 ensures Offered(results[..i]) < |data| {
      if i > 0 {
        OfferedCons(results, i);
        assert Offered(results[1..][..i - 1]) < |AfterFirst(data, results[0])|;
      }
    }
  }

  /** What one `recv` answers. */
  datatype RecvResult = Arrived(data: string) | Closed | Interrupted | WouldBlock | RecvError

  /** What a `Receive` reads, whether the client is gone, and whether the answers
      reached the point where it returns. */
  datatype RecvEnd = RecvEnd(data: string, exit: bool, returned: bool)

  function Receiving(results: seq<RecvResult>): RecvEnd {
    if results == [] then RecvEnd("", false, false)
    else match results[0]
      case Arrived(data) => var e := Receiving(results[1..]); e.(data := data + e.data)
      case Interrupted => Receiving(results[1..])
      case WouldBlock => RecvEnd("", false, true)
      case Closed => RecvEnd("", true, true)
      case RecvError => RecvEnd("", true, true)
  }

  predicate Stops(r: RecvResult) {
    r.WouldBlock? || r.Closed? || r.RecvError?
  }

  function Payload(r: RecvResult): string {
    if r.Arrived? then r.data else ""
  }

  function Payloads(results: seq<RecvResult>): (ps: seq<string>)
    ensures |ps| == |results| && forall i :: 0 <= i < |results| ==> ps[i] == Payload(results[i])
  {
    seq(|results|, i requires 0 <= i < |results| => Payload(results[i]))
  }

  /** `Receive` returns at the first answer that stops it, with everything that
      arrived before, and reports the client gone exactly when that answer says so. */
  lemma {:induction false} ReceivesUpToFirstStop(results: seq<RecvResult>, k: nat)
    requires k <= |results| && (k < |results| ==> Stops(results[k]))
    requires forall i :: 0 <= i < k ==> !Stops(results[i])
    ensures var e := Receiving(results);
            && (e.returned <==> k < |results|)
            && (e.exit <==> k < |results| && !results[k].WouldBlock?)
            && e.data == Concat(Payloads(results[..k]))
  {
    if k > 0 {
      ReceivesUpToFirstStop(results[1..], k - 1);
      assert Payloads(results[..k]) == [Payload(results[0])] + Payloads(results[1..][..k - 1]);
      ConcatCons(Payload(results[0]), Payloads(results[1..][..k - 1]));
    }
  }

  class Connection {
    const readBuffer: Buffer
    const writeBuffer: Buffer
    /** Every byte handed to the socket so far. */
    var stream: string

    ghost predicate Valid()
      reads this
    {
      readBuffer != writeBuffer
    }

    constructor ()
      ensures Valid() && readBuffer.buf == "" && writeBuffer.buf == "" && stream == ""
      ensures fresh(readBuffer) && fresh(writeBuffer)
    {
      readBuffer := new Buffer();
      writeBuffer := new Buffer();
      stream := "";
    }

    method Write(data: string)
      requires Valid()
      modifies writeBuffer
      ensures writeBuffer.buf == old(writeBuffer.buf) + data
    {
      writeBuffer.PushBack(data);
    }

    /** Reads until the kernel has nothing more, the client is gone or the given
        answers are used up. */
    method Receive(results: seq<RecvResult>) returns (exit: bool, returned: bool)
      requires Valid()
      modifies readBuffer
      ensures var e := Receiving(results);
              && exit == e.exit && returned == e.returned
              && readBuffer.buf == old(readBuffer.buf) + e.data
    {
      var i := 0;
      ghost var before := readBuffer.buf;
      assert results[0..] == results;
      assert before + Receiving(results).data == readBuffer.buf + Receiving(results[0..]).data;
      while i < |results|
        invariant 0 <= i <= |results|
        invariant before + Receiving(results).data == readBuffer.buf + Receiving(results[i..]).data
        invariant Receiving(results).exit == Receiving(results[i..]).exit
        invariant Receiving(results).returned == Receiving(results[i..]).returned
      {
        assert results[i..][1..] == results[i + 1..];
        match results[i] {
          case Arrived(data) =>
            Assoc(readBuffer.buf, data, Receiving(results[i + 1..]).data);
            readBuffer.PushBack(data);
          case Interrupted =>
          case WouldBlock =>
            return false, true;
          case Closed =>
            return true, true;
          case RecvError =>
            return true, true;
        }
        i := i + 1;
      }
      return false, false;
    }

    /** Sends the write buffer; gives up with `StillTrying` where the real loop
        would go on asking a kernel that has no more answers here. */
    method Send(results: seq<SendResult>) returns (outcome: Outcome, rest: seq<SendResult>)
      requires Valid()
      modifies this`stream, writeBuffer
      ensures var e := Sending(old(writeBuffer.buf), results);
              && outcome == e.outcome && rest == e.rest
              && stream == old(stream) + old(writeBuffer.buf)[..e.sent]
      ensures writeBuffer.buf == if outcome.StillTrying? then old(writeBuffer.buf) else ""
    {
      var toWrite := |writeBuffer.buf|;
      var data := writeBuffer.buf;
      var written := 0;
      rest := results;
      assert data[0..] == data;
      while written < toWrite
        invariant written <= toWrite == |data| && writeBuffer.buf == data
        invariant stream == old(stream) + data[..written]
        invariant written + Sending(data[written..], rest).sent == Sending(data, results).sent
        invariant Sending(data[written..], rest).outcome == Sending(data, results).outcome
        invariant Sending(data[written..], rest).rest == Sending(data, results).rest
        decreases |rest|
      {
        if rest == [] {
          return StillTrying, rest;
        }
        var answer := rest[0];
        rest := rest[1..];
        if answer.Refused? {
          if !answer.again {
            writeBuffer.Clear();
            return Dropped, rest;
          }
        } else {
          var m := Min(answer.n, toWrite - written);
          assert data[written..][m..] == data[written + m..];
          assert data[..written + m] == data[..written] + data[written..written + m];
          stream := stream + data[written..written + m];
          written := written + m;
        }
      }
      assert data[..written] == data;
      writeBuffer.Clear();
      return Delivered, rest;
    }
  }

  // -------------------------------------------------------- Many Write/Send rounds

  datatype Rounds = Rounds(stream: string, outcome: Outcome, rest: seq<SendResult>)

  /** Each text is written and sent; a round that cannot finish is the last. */
  function SendAll(texts: seq<string>, results: seq<SendResult>): Rounds
    decreases texts
  {
    if texts == [] then Rounds("", Delivered, results)
    else
      var e := Sending(texts[0], results);
      if e.outcome.StillTrying? then Rounds(texts[0][..e.sent], StillTrying, [])
      else
        var r := SendAll(texts[1..], e.rest);
        Rounds(texts[0][..e.sent] + r.stream, Worse(e.outcome, r.outcome), r.rest)
  }

  function Worse(a: Outcome, b: Outcome): Outcome {
    if a.StillTrying? || b.StillTrying? then StillTrying
    else if a.Dropped? || b.Dropped? then Dropped
    else Delivered
  }

  /** Without a fatal answer the socket always carries a prefix of the texts in
      order, and when every round has returned it carries all of them, once. */
  lemma {:induction false} InOrderWithoutGaps(texts: seq<string>, results: seq<SendResult>)
    requires NoFatal(results)
    ensures var r := SendAll(texts, results);
            && !r.outcome.Dropped? && NoFatal(r.rest)
            && r.stream <= Concat(texts)
            && (r.outcome.Delivered? ==> r.stream == Concat(texts))
    decreases texts
  {
    if texts != [] {
      NeverDropped(texts[0], results);
      var e := Sending(texts[0], results);
      if !e.outcome.StillTrying? {
        InOrderWithoutGaps(texts[1..], e.rest);
        assert texts[0][..e.sent] == texts[0];
      } else {
        assert texts[0][..e.sent] <= texts[0] + Concat(texts[1..]);
      }
    }
  }

  lemma {:induction false} NeverDropped(data: string, results: seq<SendResult>)
    requires NoFatal(results)
    ensures !Sending(data, results).outcome.Dropped? && NoFatal(Sending(data, results).rest)
    decreases results
  {
    if data != "" && results != [] {
      assert results[0] != Refused(false);
      match results[0]
      case Took(n) => NeverDropped(data[Min(n, |data|)..], results[1..]);
      case Refused(_) => NeverDropped(data, results[1..]);
    }
  }

  /** What each round puts on the socket, whatever the answers. */
  function Pieces(texts: seq<string>, results: seq<SendResult>): seq<string>
    decreases texts
  {
    if texts == [] then []
    else
      var e := Sending(texts[0], results);
      [texts[0][..e.sent]] + if e.outcome.StillTrying? then [] else Pieces(texts[1..], e.rest)
  }

  /** The pieces are starts of the texts, in order: of every text when `complete`,
      and whole, but for the last one of an incomplete list, when `lossless`. */
  ghost predicate InPieces(ps: seq<string>, texts: seq<string>, complete: bool, lossless: bool) {
    && |ps| <= |texts| && (complete ==> |ps| == |texts|)
    && forall i :: 0 <= i < |ps| ==>
         ps[i] <= texts[i] && (lossless && (complete || i + 1 < |ps|) ==> ps[i] == texts[i])
  }

  /** Even after a fatal answer each text goes out up to some byte, in order; only a
      fatal answer or a round that has not ended cuts one. */
  lemma {:induction false} SendsInPieces(texts: seq<string>, results: seq<SendResult>)
    ensures var r := SendAll(texts, results);
            && r.stream == Concat(Pieces(texts, results))
            && InPieces(Pieces(texts, results), texts, !r.outcome.StillTrying?, NoFatal(results))
    decreases texts
  {
    hide Sending;
    if texts != [] {
      var e := Sending(texts[0], results);
      if NoFatal(results) {
        NeverDropped(texts[0], results);
      }
      if e.outcome.StillTrying? {
        assert Pieces(texts, results) == [texts[0][..e.sent]];
      } else {
        var ps := Pieces(texts[1..], e.rest);
        SendsInPieces(texts[1..], e.rest);
        assert Pieces(texts, results) == [texts[0][..e.sent]] + ps;
        ConcatCons(texts[0][..e.sent], ps);
        PiecesCons(texts, texts[0][..e.sent], ps, !SendAll(texts[1..], e.rest).outcome.StillTrying?, NoFatal(results));
      }
    }
  }

  lemma PiecesCons(texts: seq<string>, p: string, ps: seq<string>, complete: bool, lossless: bool)
    requires texts != [] && p <= texts[0] && (lossless ==> p == texts[0])
    requires InPieces(ps, texts[1..], complete, lossless)
    ensures InPieces([p] + ps, texts, complete, lossless)
  {
    forall i | 0 <= i < |ps| + 1
      ensures ([p] + ps)[i] <= texts[i]
      ensures lossless && (complete || i + 1 < |ps| + 1) ==> ([p] + ps)[i] == texts[i] {
      if i > 0 {
        assert ([p] + ps)[i] == ps[i - 1] && texts[i] == texts[1..][i - 1];
      }
    }
  }

  /** Pieces that lose nothing spell a start of the texts, and all of them once
      complete. */
  lemma {:induction false} LosslessPieces(ps: seq<string>, texts: seq<string>, complete: bool)
    requires InPieces(ps, texts, complete, true)
    ensures Concat(ps) <= Concat(texts) && (complete ==> Concat(ps) == Concat(texts))
    decreases ps
  {
    if ps != [] {
      if |ps| == 1 && !complete {
        assert ps[1..] == [];
        assert ps[0] + "" == ps[0] <= texts[0] + Concat(texts[1..]);
      } else {
        LosslessPieces(ps[1..], texts[1..], complete);
      }
    }
  }
}
