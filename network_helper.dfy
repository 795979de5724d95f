/**
 * The frame codec of common/NetworkHelper.cs: the accumulation buffer that
 * socket reads append to, the extraction of one CR LF terminated line or
 * one fixed-size value frame from its front, the 64-bit Fowler-Noll-Vo
 * hash, and the byte sequences the send operations put on the wire.
 */
module Network {
  import opened Wrappers
  import Ascii

  const CR: bv8 := 13
  const LF: bv8 := 10
  const CrLf: seq<bv8> := [CR, LF]

  /** Why a read fails: no complete frame before the timeout, a zero-byte read, or a bad value terminator. */
  datatype IoError = Timeout | PeerClosed | MalformedData

  // ---------------------------------------------------------------------
  // Frames
  // ---------------------------------------------------------------------

  /** A CR immediately followed by LF starts at index i of s. */
  predicate CrLfAt(s: seq<bv8>, i: int) {
    0 <= i && i + 1 < |s| && s[i] == CR && s[i + 1] == LF
  }

  /** The first index at or after `from` where a CR LF pair starts. */
  function FindCrLfFrom(s: seq<bv8>, from: nat): (r: Option<nat>)
    ensures r.Some? ==> from <= r.value && CrLfAt(s, r.value)
    ensures r.Some? ==> forall j :: from <= j < r.value ==> !CrLfAt(s, j)
    ensures r.None? ==> forall j :: from <= j ==> !CrLfAt(s, j)
    decreases |s| - from
  {
    if from + 1 >= |s| then None
    else if CrLfAt(s, from) then Some(from)
    else FindCrLfFrom(s, from + 1)
  }

  function FindCrLf(s: seq<bv8>): Option<nat> {
    FindCrLfFrom(s, 0)
  }

  /** What extracting one frame from the front of a buffer gives. */
  datatype Extraction =
    | Pending                                    // not enough bytes yet
    | Extracted(frame: seq<bv8>, rest: seq<bv8>) // the frame and the bytes after it
    | Malformed                                  // the bytes cannot be a frame

  /** Line mode: everything before the first CR LF pair, and what follows the pair. */
  function SplitLine(s: seq<bv8>): Extraction {
    match FindCrLf(s)
    case None => Pending
    case Some(i) => Extracted(s[..i], s[i + 2..])
  }

  /**
   * Value mode: exactly `size` bytes followed by CR LF. A negative size
   * makes the stream seek before its start, which throws.
   */
  function SplitValue(s: seq<bv8>, size: int): Extraction {
    if |s| < size + 2 then Pending
    else if size < 0 then Malformed
    else if s[size] != CR || s[size + 1] != LF then Malformed
    else Extracted(s[..size], s[size + 2..])
  }

  /** A line is extracted exactly when the buffer is that line, CR LF and a rest, with no earlier CR LF. */
  lemma SplitLineExtracted(s: seq<bv8>, line: seq<bv8>, rest: seq<bv8>)
    ensures SplitLine(s) == Extracted(line, rest)
        <==> s == line + CrLf + rest && forall j :: 0 <= j < |line| ==> !CrLfAt(s, j)
  {
    if s == line + CrLf + rest && forall j :: 0 <= j < |line| ==> !CrLfAt(s, j) {
      assert CrLfAt(s, |line|);
      assert FindCrLf(s) == Some(|line|);
      assert s[..|line|] == line;
      assert s[|line| + 2..] == rest;
    }
    if SplitLine(s) == Extracted(line, rest) {
      var i := FindCrLf(s).value;
      assert s == s[..i] + CrLf + s[i + 2..];
    }
  }

  /** No line is available exactly when no CR is immediately followed by LF; a lone CR never ends a line. */
  lemma SplitLinePending(s: seq<bv8>)
    ensures SplitLine(s).Pending? <==> forall j :: !CrLfAt(s, j)
    ensures !SplitLine(s).Malformed?
  {
    if SplitLine(s).Extracted? {
      assert CrLfAt(s, FindCrLf(s).value);
    }
  }

  /** Bytes arriving after a complete line do not change the line; they join the rest. */
  lemma SplitLineExtend(s: seq<bv8>, more: seq<bv8>)
    requires SplitLine(s).Extracted?
    ensures SplitLine(s + more) == Extracted(SplitLine(s).frame, SplitLine(s).rest + more)
  {
    var line, rest := SplitLine(s).frame, SplitLine(s).rest;
    SplitLineExtracted(s, line, rest);
    assert s + more == line + CrLf + (rest + more);
    forall j | 0 <= j < |line| ensures !CrLfAt(s + more, j) {
      assert !CrLfAt(s, j);
    }
    SplitLineExtracted(s + more, line, rest + more);
  }

  /** Bytes arriving after a decided value frame do not change the decision; after a frame they join the rest. */
  lemma SplitValueExtend(s: seq<bv8>, size: int, more: seq<bv8>)
    requires !SplitValue(s, size).Pending?
    ensures SplitValue(s, size).Malformed? ==> SplitValue(s + more, size).Malformed?
    ensures SplitValue(s, size).Extracted? ==>
              SplitValue(s + more, size) == Extracted(SplitValue(s, size).frame, SplitValue(s, size).rest + more)
  {
    if SplitValue(s, size).Extracted? {
      assert (s + more)[..size] == s[..size];
      assert (s + more)[size + 2..] == s[size + 2..] + more;
    }
  }

  /** A value frame is extracted exactly when the buffer is `size` bytes, CR LF and a rest. */
  lemma SplitValueExtracted(s: seq<bv8>, size: int, value: seq<bv8>, rest: seq<bv8>)
    ensures SplitValue(s, size) == Extracted(value, rest)
        <==> |value| == size && s == value + CrLf + rest
  {
    if |value| == size && s == value + CrLf + rest {
      assert s[..size] == value && s[size + 2..] == rest;
    }
    if SplitValue(s, size) == Extracted(value, rest) {
      assert s == s[..size] + CrLf + s[size + 2..];
    }
  }

  /** The three outcomes of value mode, by the buffered length and the two bytes after the payload. */
  lemma SplitValueOutcomes(s: seq<bv8>, size: int)
    ensures SplitValue(s, size).Pending? <==> |s| < size + 2
    ensures SplitValue(s, size).Malformed?
        <==> |s| >= size + 2 && (size < 0 || s[size] != CR || s[size + 1] != LF)
  {
  }

  // ---------------------------------------------------------------------
  // The bytes a send puts on the wire
  // ---------------------------------------------------------------------

  /** SendHeaderAndBody: header, CR LF, the data, CR LF. */
  function HeaderAndBody(header: string, data: seq<bv8>): seq<bv8> {
    Ascii.Encode(header) + CrLf + data + CrLf
  }

  /** SendMessage: one line. */
  function MessageFrame(msg: string): seq<bv8> {
    Ascii.Encode(msg) + CrLf
  }

  /** SendError: a SERVER_ERROR line. */
  function ErrorFrame(err: string): seq<bv8> {
    MessageFrame("SERVER_ERROR " + err)
  }

  /** The header SendValue puts in front of a value: key, length and FNV hash, in decimal. */
  function ValueHeader(key: string, data: seq<bv8>): string {
    "VALUE " + key + " " + Ascii.IntToString(|data|) + " " + Ascii.IntToString(Fnv1(data) as int)
  }

  /** SendValue. */
  function ValueFrame(key: string, data: seq<bv8>): seq<bv8> {
    HeaderAndBody(ValueHeader(key, data), data)
  }

  predicate NoLineFeed(s: string) { forall i :: 0 <= i < |s| ==> s[i] != '\n' }

  /** For a printable key, the VALUE header is one ASCII line. */
  lemma ValueHeaderIsLine(key: string, data: seq<bv8>)
    requires Ascii.IsAscii(key) && NoLineFeed(key)
    ensures Ascii.IsAscii(ValueHeader(key, data)) && NoLineFeed(ValueHeader(key, data))
  {
    Ascii.IntToStringChars(|data|);
    Ascii.IntToStringChars(Fnv1(data) as int);
  }

  /** A text without LF encodes to bytes in which no CR LF pair can start, not even at its last byte. */
  lemma EncodedLineHasNoCrLf(text: string, tail: seq<bv8>)
    requires NoLineFeed(text)
    ensures forall j :: 0 <= j < |text| ==> !CrLfAt(Ascii.Encode(text) + CrLf + tail, j)
  {
    var s := Ascii.Encode(text) + CrLf + tail;
    forall j | 0 <= j < |text| ensures !CrLfAt(s, j) {
      if j + 1 < |text| {
        assert s[j + 1] == Ascii.EncodeChar(text[j + 1]);
      } else {
        assert s[j + 1] == CR;
      }
    }
  }

  /** A line sent with SendMessage, followed by anything, reads back as that line. */
  lemma MessageRoundTrip(msg: string, more: seq<bv8>)
    requires NoLineFeed(msg)
    ensures SplitLine(MessageFrame(msg) + more) == Extracted(Ascii.Encode(msg), more)
  {
    EncodedLineHasNoCrLf(msg, more);
    SplitLineExtracted(MessageFrame(msg) + more, Ascii.Encode(msg), more);
  }

  /**
   * Frame round trip: reading a line and then a value of |data| bytes from
   * what SendHeaderAndBody produced recovers the header bytes and the data,
   * and leaves exactly the bytes that followed.
   */
  lemma HeaderAndBodyRoundTrip(header: string, data: seq<bv8>, more: seq<bv8>)
    requires NoLineFeed(header)
    ensures |HeaderAndBody(header, data)| == |header| + |data| + 4
    ensures SplitLine(HeaderAndBody(header, data) + more)
         == Extracted(Ascii.Encode(header), data + CrLf + more)
    ensures SplitValue(data + CrLf + more, |data|) == Extracted(data, more)
  {
    var wire := HeaderAndBody(header, data) + more;
    assert wire == Ascii.Encode(header) + CrLf + (data + CrLf + more);
    EncodedLineHasNoCrLf(header, data + CrLf + more);
    SplitLineExtracted(wire, Ascii.Encode(header), data + CrLf + more);
    SplitValueExtracted(data + CrLf + more, |data|, data, more);
  }

  // ---------------------------------------------------------------------
  // Fowler-Noll-Vo
  // ---------------------------------------------------------------------

  const FnvOffsetBasis: bv64 := 14695981039346656037
  const FnvPrime: bv64 := 1099511628211

  /**
   * The hash FNVHash computes: start from the offset basis, and for each
   * byte multiply by the prime (modulo 2^64, which bv64 arithmetic is) and
   * then XOR the byte in. Multiply-then-XOR is the FNV-1 order.
   */
  function Fnv1(s: seq<bv8>): bv64 {
    if s == [] then FnvOffsetBasis else FnvStep(Fnv1(s[..|s| - 1]), s[|s| - 1])
  }

  /** One round: multiply by the prime modulo 2^64, then XOR the byte in. */
  function FnvStep(hash: bv64, b: bv8): bv64 {
    (hash * FnvPrime) ^ (b as bv64)
  }

  /** The published FNV-1 test vector for "a", which FNV-1a (0xaf63dc4c8601ec8c) does not meet. */
  lemma Fnv1TestVector()
    ensures Fnv1([0x61]) == 0xaf63bd4c8601b7be
  {
    assert [0x61 as bv8][..0] == [];
  }

  // ---------------------------------------------------------------------
  // Reading whole frames, the way the blocking Begin/End pairs do
  // ---------------------------------------------------------------------

  /** What a blocking read ends with, and the buffer and unread chunks it leaves. */
  datatype Await =
    | Arrived(frame: seq<bv8>, buffered: seq<bv8>, unread: seq<seq<bv8>>)
    | Failed(error: IoError, buffered: seq<bv8>, unread: seq<seq<bv8>>)

  /**
   * BeginReadLine/EndReadLine against a socket that delivers `incoming`, one
   * chunk per receive, before the operation times out: try the buffer if it
   * holds anything, otherwise append the next chunk and try again; a
   * zero-byte chunk closes the connection.
   */
  function AwaitLine(buffered: seq<bv8>, incoming: seq<seq<bv8>>): Await
    decreases |incoming|
  {
    if |buffered| > 0 && SplitLine(buffered).Extracted? then
      Arrived(SplitLine(buffered).frame, SplitLine(buffered).rest, incoming)
    else if incoming == [] then Failed(Timeout, buffered, [])
    else if incoming[0] == [] then Failed(PeerClosed, buffered, incoming[1..])
    else AwaitLine(buffered + incoming[0], incoming[1..])
  }

  /** BeginReadValue/EndReadValue, the same loop in value mode. */
  function AwaitValue(buffered: seq<bv8>, size: int, incoming: seq<seq<bv8>>): Await
    decreases |incoming|
  {
    var e := SplitValue(buffered, size);
    if |buffered| > 0 && e.Extracted? then Arrived(e.frame, e.rest, incoming)
    else if |buffered| > 0 && e.Malformed? then Failed(MalformedData, buffered, incoming)
    else if incoming == [] then Failed(Timeout, buffered, [])
    else if incoming[0] == [] then Failed(PeerClosed, buffered, incoming[1..])
    else AwaitValue(buffered + incoming[0], size, incoming[1..])
  }

  /** A line sent whole in one chunk to an empty buffer arrives, leaving what followed it buffered. */
  lemma AwaitMessage(msg: string, more: seq<bv8>, later: seq<seq<bv8>>)
    requires NoLineFeed(msg)
    ensures AwaitLine([], [MessageFrame(msg) + more] + later)
         == Arrived(Ascii.Encode(msg), more, later)
  {
    MessageRoundTrip(msg, more);
    assert [] + (MessageFrame(msg) + more) == MessageFrame(msg) + more;
    assert ([MessageFrame(msg) + more] + later)[1..] == later;
  }

  /** All the bytes of a sequence of receives, in order. */
  function Concat(chunks: seq<seq<bv8>>): seq<bv8>
    decreases |chunks|
  {
    if chunks == [] then [] else chunks[0] + Concat(chunks[1..])
  }

  /** No receive in `chunks` returned zero bytes. */
  predicate NoneClosed(chunks: seq<seq<bv8>>) {
    forall i :: 0 <= i < |chunks| ==> chunks[i] != []
  }

  lemma ConcatStep(buffered: seq<bv8>, chunks: seq<seq<bv8>>)
    requires chunks != []
    ensures buffered + Concat(chunks) == (buffered + chunks[0]) + Concat(chunks[1..])
  {
  }

  /**
   * A line split across any number of receives is assembled: when no receive
   * closes the connection, the blocking line read delivers the first line of
   * everything buffered and received, and leaves the rest of those bytes
   * (buffered, then the receives not yet taken) in order; with no complete
   * line in all of it, it times out holding every byte.
   */
  lemma {:induction false} AwaitLineAssembles(buffered: seq<bv8>, chunks: seq<seq<bv8>>)
    requires NoneClosed(chunks)
    ensures var whole, a := buffered + Concat(chunks), AwaitLine(buffered, chunks);
      && (SplitLine(whole).Extracted? ==>
            a.Arrived? && a.frame == SplitLine(whole).frame && a.buffered + Concat(a.unread) == SplitLine(whole).rest)
      && (SplitLine(whole).Pending? ==> a == Failed(Timeout, whole, []))
    decreases |chunks|
  {
    var whole := buffered + Concat(chunks);
    SplitLinePending(buffered);
    if |buffered| > 0 && SplitLine(buffered).Extracted? {
      SplitLineExtend(buffered, Concat(chunks));
    } else if chunks == [] {
      assert whole == buffered;
      if buffered == [] {
        assert SplitLine(buffered).Pending?;
      }
    } else {
      ConcatStep(buffered, chunks);
      AwaitLineAssembles(buffered + chunks[0], chunks[1..]);
    }
  }

  /**
   * The same for a value frame: when no receive closes the connection, the
   * blocking value read delivers the frame that everything buffered and
   * received starts with and leaves the rest in order, fails as malformed
   * when those bytes cannot start a frame, and times out holding every byte
   * while too few have come.
   */
  lemma {:induction false} AwaitValueAssembles(buffered: seq<bv8>, size: int, chunks: seq<seq<bv8>>)
    requires NoneClosed(chunks)
    ensures var whole, a := buffered + Concat(chunks), AwaitValue(buffered, size, chunks);
      && (SplitValue(whole, size).Extracted? ==>
            a.Arrived? && a.frame == SplitValue(whole, size).frame
            && a.buffered + Concat(a.unread) == SplitValue(whole, size).rest)
      && (SplitValue(whole, size).Malformed? && whole != [] ==> a.Failed? && a.error == MalformedData)
      && (SplitValue(whole, size).Pending? ==> a == Failed(Timeout, whole, []))
    decreases |chunks|
  {
    var whole := buffered + Concat(chunks);
    var e := SplitValue(buffered, size);
    if |buffered| > 0 && !e.Pending? {
      SplitValueExtend(buffered, size, Concat(chunks));
    } else if chunks == [] {
      assert whole == buffered;
    } else {
      if !e.Pending? {
        SplitValueExtend(buffered, size, Concat(chunks));
      }
      ConcatStep(buffered, chunks);
      AwaitValueAssembles(buffered + chunks[0], size, chunks[1..]);
    }
  }

  // ---------------------------------------------------------------------
  // The connection's buffer
  // ---------------------------------------------------------------------

  /**
   * NetworkHelper: `data` is the accumulation buffer (_dataStream) that
   * socket reads append to and from whose front frames are cut.
   */
  class NetworkHelper {
    var data: seq<bv8>

    constructor ()
      ensures data == []
    {
      data := [];
    }

    /** The part of ReadCallback that appends the bytes of one receive. */
    method Receive(chunk: seq<bv8>)
      modifies this
      ensures data == old(data) + chunk
    {
      data := data + chunk;
    }

    /**
     * TryReadLine: scans from the start of the buffer for CR LF. On success
     * the line (without the terminator, ASCII-decoded) is returned and the
     * bytes after the terminator are moved to the front; otherwise nothing
     * changes and None ("no line yet") is returned.
     */
    method TryReadLine() returns (line: Option<string>)
      modifies this
      ensures SplitLine(old(data)).Pending? ==> line == None && data == old(data)
      ensures SplitLine(old(data)).Extracted? ==>
                line == Some(Ascii.Decode(SplitLine(old(data)).frame))
                && data == SplitLine(old(data)).rest
    {
      var stream := data;
      var gotR := false;
      var gotN := false;
      var lineBuf: seq<bv8> := [];
      var position := 0;
      var currentByte: int;
      if position < |stream| {
        currentByte := stream[position] as int;
        position := position + 1;
      } else {
        currentByte := -1;
      }
      while currentByte >= 0
        invariant 0 <= position <= |stream|
        invariant !gotR && !gotN
        invariant currentByte >= 0 ==>
                    1 <= position && currentByte == stream[position - 1] as int
                    && lineBuf == stream[..position - 1]
        invariant currentByte < 0 ==> currentByte == -1 && position == |stream| && lineBuf == stream
        invariant forall j :: 0 <= j < position - 1 ==> !CrLfAt(stream, j)
        decreases |stream| - position + (if currentByte >= 0 then 1 else 0)
      {
        lineBuf := lineBuf + [currentByte as bv8];
        gotR := currentByte == 13;
        if position < |stream| {
          currentByte := stream[position] as int;
          position := position + 1;
        } else {
          currentByte := -1;
        }
        if gotR {
          if currentByte == 10 {
            gotN := true;
            break;
          } else {
            gotR := false;
          }
        }
      }
      if gotR && gotN {
        // lineBuf ends with the CR; the LF was the last byte read
        assert CrLfAt(stream, position - 2);
        assert FindCrLf(stream) == Some(position - 2);
        var bytes := lineBuf[..|lineBuf| - 1];
        assert bytes == stream[..position - 2];
        line := Some(Ascii.Decode(bytes));
        var start := position;
        data := stream[start..];
      } else {
        assert FindCrLf(stream) == None;
        line := None;
      }
    }

    /**
     * TryReadValue: with at least size+2 bytes buffered, checks that the two
     * bytes after the payload are CR LF (throwing otherwise), returns the
     * payload and moves the bytes after the terminator to the front.
     */
    method TryReadValue(size: int) returns (r: Result<Option<seq<bv8>>, IoError>)
      modifies this
      ensures SplitValue(old(data), size).Pending? ==> r == Success(None) && data == old(data)
      ensures SplitValue(old(data), size).Malformed? ==> r == Failure(MalformedData) && data == old(data)
      ensures SplitValue(old(data), size).Extracted? ==>
                r == Success(Some(SplitValue(old(data), size).frame))
                && data == SplitValue(old(data), size).rest
    {
      if |data| < size + 2 {
        return Success(None);
      }
      if size < 0 {
        // seeking to a negative offset throws
        return Failure(MalformedData);
      }
      var shouldBeR := data[size];
      var shouldBeN := data[size + 1];
      if shouldBeR != CR || shouldBeN != LF {
        return Failure(MalformedData);
      }
      var value := data[..size];
      data := data[size + 2..];
      return Success(Some(value));
    }

    /** BeginReadLine followed by EndReadLine, with `incoming` the chunks the socket delivers in time. */
    method ReadLine(incoming: seq<seq<bv8>>) returns (r: Result<string, IoError>, unread: seq<seq<bv8>>)
      modifies this
      ensures var a := AwaitLine(old(data), incoming);
              && (a.Arrived? ==> r == Success(Ascii.Decode(a.frame)))
              && (a.Failed? ==> r == Failure(a.error))
              && data == a.buffered && unread == a.unread
    {
      unread := incoming;
      if |data| > 0 {
        var line := TryReadLine();
        if line.Some? {
          return Success(line.value), unread;
        }
      }
      while true
        invariant AwaitLine(data, unread) == AwaitLine(old(data), incoming)
        invariant !(|data| > 0 && SplitLine(data).Extracted?)
        decreases |unread|
      {
        if unread == [] {
          return Failure(Timeout), [];
        }
        var chunk := unread[0];
        unread := unread[1..];
        if |chunk| == 0 {
          return Failure(PeerClosed), unread;
        }
        Receive(chunk);
        var line := TryReadLine();
        if line.Some? {
          return Success(line.value), unread;
        }
      }
    }

    /** BeginReadValue followed by EndReadValue. */
    method ReadValue(size: int, incoming: seq<seq<bv8>>) returns (r: Result<seq<bv8>, IoError>, unread: seq<seq<bv8>>)
      modifies this
      ensures var a := AwaitValue(old(data), size, incoming);
              && (a.Arrived? ==> r == Success(a.frame))
              && (a.Failed? ==> r == Failure(a.error))
              && data == a.buffered && unread == a.unread
    {
      unread := incoming;
      if |data| > 0 {
        var value := TryReadValue(size);
        if value.Failure? {
          return Failure(value.error), unread;
        }
        if value.value.Some? {
          return Success(value.value.value), unread;
        }
      }
      while true
        invariant AwaitValue(data, size, unread) == AwaitValue(old(data), size, incoming)
        invariant |data| > 0 ==> SplitValue(data, size).Pending?
        decreases |unread|
      {
        if unread == [] {
          return Failure(Timeout), [];
        }
        var chunk := unread[0];
        unread := unread[1..];
        if |chunk| == 0 {
          return Failure(PeerClosed), unread;
        }
        Receive(chunk);
        var value := TryReadValue(size);
        if value.Failure? {
          return Failure(value.error), unread;
        }
        if value.value.Some? {
          return Success(value.value.value), unread;
        }
      }
    }

    /** FNVHash. */
    static method FNVHash(data: seq<bv8>) returns (hash: bv64)
      ensures hash == Fnv1(data)
    {
      hash := FnvOffsetBasis;
      for i := 0 to |data|
        invariant hash == Fnv1(data[..i])
      {
        assert data[..i + 1][..i] == data[..i];
        hash := FnvStep(hash, data[i]);
      }
      assert data[..|data|] == data;
    }

    /** SendHeaderAndBody: the header and CR LF, the data, and CR LF, copied into one fresh array. */
    method SendHeaderAndBody(headerString: string, data: seq<bv8>) returns (totalData: seq<bv8>)
      ensures totalData == HeaderAndBody(headerString, data)
      ensures |totalData| == |headerString| + |data| + 4
    {
      var header := Ascii.Encode(headerString + "\r\n");
      Ascii.EncodeAppend(headerString, "\r\n");
      var total := new bv8[|data| + |header| + 2];
      forall i | 0 <= i < |header| {
        total[i] := header[i];
      }
      forall i | 0 <= i < |data| {
        total[|header| + i] := data[i];
      }
      total[|header| + |data|] := CR;
      total[|header| + |data| + 1] := LF;
      totalData := total[..];
      assert totalData == header + data + CrLf;
    }

    /** SendValue: a VALUE header with key, length and hash, then the data. */
    method SendValue(data: seq<bv8>, key: string) returns (wire: seq<bv8>)
      ensures wire == ValueFrame(key, data)
    {
      var hash := FNVHash(data);
      wire := SendHeaderAndBody("VALUE " + key + " " + Ascii.IntToString(|data|) + " " + Ascii.IntToString(hash as int), data);
    }

    /** SendError. */
    method SendError(err: string) returns (wire: seq<bv8>)
      ensures wire == ErrorFrame(err)
    {
      wire := Ascii.Encode("SERVER_ERROR " + err + "\r\n");
      Ascii.EncodeAppend("SERVER_ERROR " + err, "\r\n");
    }

    /** SendMessage. */
    method SendMessage(msg: string) returns (wire: seq<bv8>)
      ensures wire == MessageFrame(msg)
    {
      wire := Ascii.Encode(msg + "\r\n");
      Ascii.EncodeAppend(msg, "\r\n");
    }
  }
}
