/**
 * The client library of CachemanAPI/CachemanClient.cs: keys are
 * normalised and hashed (64-bit FNV over the key's characters) to pick one
 * of n servers; each server slot has a lazily opened connection and a
 * circuit breaker that, after a failure, keeps the server out of use for
 * DEAD_SERVER_POLL_SECONDS. Set, Get and Delete send one request, read the
 * reply, and mark the server bad on any exception.
 */
module ClientApi {
  import opened Wrappers
  import opened Ascii
  import opened Network
  import opened Commands

  const DeadServerPollSeconds: int := 120

  // ---------------------------------------------------------------------
  // Keys and shard routing
  // ---------------------------------------------------------------------

  /** NormalizeKey: every space becomes NUL; every other character stays. */
  function NormalizeKey(key: string): (r: string)
    ensures |r| == |key|
    ensures forall i :: 0 <= i < |key| ==> r[i] == (if key[i] == ' ' then 0 as char else key[i])
  {
    seq(|key|, i requires 0 <= i < |key| => if key[i] == ' ' then 0 as char else key[i])
  }

  /** A normalised key has no space, so it stays one token of a command line. */
  lemma NormalizeKeyHasNoSpace(key: string)
    ensures ' ' !in NormalizeKey(key)
  {
    var r := NormalizeKey(key);
    forall i | 0 <= i < |r| ensures r[i] != ' ' {
    }
  }

  /** Normalising twice is normalising once. */
  lemma NormalizeKeyIdempotent(key: string)
    ensures NormalizeKey(NormalizeKey(key)) == NormalizeKey(key)
  {
    NormalizeKeyHasNoSpace(key);
    var r := NormalizeKey(key);
    forall i | 0 <= i < |r| ensures NormalizeKey(r)[i] == r[i] {
      assert r[i] != ' ';
    }
  }

  /** Normalising keeps an ASCII key without LF an ASCII key without LF. */
  lemma NormalizeKeyKeepsLine(key: string)
    requires IsAscii(key) && NoLineFeed(key)
    ensures IsAscii(NormalizeKey(key)) && NoLineFeed(NormalizeKey(key))
  {
  }

  /** One step of the key hash: multiply by the FNV prime, then XOR the UTF-16 code unit in. */
  function CharStep(hash: bv64, c: char): bv64 {
    (hash * FnvPrime) ^ (c as int as bv64)
  }

  /** The hash GetHashedServerIndex computes over the key's characters. */
  function KeyHash(key: string): bv64
    decreases |key|
  {
    if |key| == 0 then FnvOffsetBasis else CharStep(KeyHash(key[..|key| - 1]), key[|key| - 1])
  }

  /**
   * For an ASCII key the key hash is FNVHash of the key's ASCII bytes:
   * the same constants and the same multiply-then-XOR order.
   */
  lemma {:induction false} KeyHashIsFnv1(key: string)
    requires IsAscii(key)
    ensures KeyHash(key) == Fnv1(Encode(key))
    decreases |key|
  {
    if |key| > 0 {
      var prefix := key[..|key| - 1];
      var c := key[|key| - 1];
      var bytes := Encode(key);
      assert IsAscii(prefix);
      KeyHashIsFnv1(prefix);
      assert bytes[..|key| - 1] == Encode(prefix);
      assert bytes[|key| - 1] == EncodeChar(c);
      AsciiCharStep(KeyHash(prefix), c);
    }
  }

  /** On an ASCII character the character step is the byte step on its ASCII code. */
  lemma AsciiCharStep(hash: bv64, c: char)
    requires IsAsciiChar(c)
    ensures CharStep(hash, c) == FnvStep(hash, EncodeChar(c))
  {
    CodeUnitWiden(c as int);
  }

  lemma CodeUnitWiden(n: int)
    requires 0 <= n < 128
    ensures (n as bv8) as bv64 == n as bv64
  {
  }

  /** The server a key is routed to among n > 0: the key hash modulo n. */
  function ServerIndex(key: string, n: nat): (r: nat)
    requires n > 0
    ensures r < n
  {
    (KeyHash(key) as int) % n
  }

  // ---------------------------------------------------------------------
  // How the replies are read
  // ---------------------------------------------------------------------

  /** What a public operation ends with: a value, or an exception thrown to the caller. */
  datatype Reply<T> = Returned(value: T) | Thrown

  /**
   * Set and Delete: block for one reply line; the operation succeeds when
   * the line is `expected`, and a failed read is an exception. The second
   * component is what stays buffered on the connection.
   */
  function LineResponse(buffered: seq<bv8>, incoming: seq<seq<bv8>>, expected: string): (Reply<bool>, seq<bv8>) {
    match AwaitLine(buffered, incoming)
    case Failed(_, b, _) => (Thrown, b)
    case Arrived(frame, b, _) => (Returned(Decode(frame) == expected), b)
  }

  /**
   * Get: block for a reply line, then interpret it; the second component
   * is what stays buffered on the connection.
   */
  function GetResponse(buffered: seq<bv8>, incoming: seq<seq<bv8>>): (Reply<Option<seq<bv8>>>, seq<bv8>) {
    match AwaitLine(buffered, incoming)
    case Failed(_, b, _) => (Thrown, b)
    case Arrived(frame, b, unread) => GetLineResponse(Decode(frame), b, unread)
  }

  /**
   * Get's reply line: NOT_FOUND is a miss, a line that does not parse is
   * an exception, a command other than VALUE is a miss, and a VALUE line is
   * followed by a value of the announced size.
   */
  function GetLineResponse(line: string, buffered: seq<bv8>, incoming: seq<seq<bv8>>): (Reply<Option<seq<bv8>>>, seq<bv8>) {
    if line == "NOT_FOUND" then (Returned(None), buffered)
    else match ParseCommand(line)
      case Failure(_) => (Thrown, buffered)
      case Success(cmd) =>
        if cmd.action != CommandType.Value then (Returned(None), buffered)
        else match AwaitValue(buffered, cmd.size, incoming)
          case Failed(_, b, _) => (Thrown, b)
          case Arrived(data, b, _) => (Returned(Some(data)), b)
  }

  /** A one-line reply arriving on an idle connection is compared as sent; what followed it stays buffered. */
  lemma LineResponseReadsReply(msg: string, expected: string, more: seq<bv8>, later: seq<seq<bv8>>)
    requires IsAscii(msg) && NoLineFeed(msg)
    ensures LineResponse([], [MessageFrame(msg) + more] + later, expected) == (Returned(msg == expected), more)
  {
    AwaitMessage(msg, more, later);
    DecodeEncode(msg);
  }

  /** A NOT_FOUND reply on an idle connection makes Get return nothing. */
  lemma GetResponseMiss(more: seq<bv8>, later: seq<seq<bv8>>)
    ensures GetResponse([], [MessageFrame("NOT_FOUND") + more] + later) == (Returned(None), more)
  {
    AwaitMessage("NOT_FOUND", more, later);
    DecodeEncode("NOT_FOUND");
  }

  /**
   * The reply a server sends for a hit (a VALUE line and the value frame)
   * arriving on an idle connection makes Get return exactly the data.
   */
  lemma GetResponseHit(key: string, data: seq<bv8>, more: seq<bv8>, later: seq<seq<bv8>>)
    requires IsAscii(key) && NoLineFeed(key) && ' ' !in key
    requires |data| <= Int64Max
    ensures GetResponse([], [ValueFrame(key, data) + more] + later) == (Returned(Some(data)), more)
  {
    var header := ValueHeader(key, data);
    var rest := data + CrLf + more;
    ValueHeaderIsLine(key, data);
    HeaderAndBodyRoundTrip(header, data, more);
    AwaitFirstChunk(ValueFrame(key, data) + more, later);
    DecodeEncode(header);
    ParseValueHeader(key, data);
    ValueLineIsNotNotFound(header);
    GetResponseOfValue(header, rest, later, Command(CommandType.Value, Some(key), -1, |data|), data, more);
  }

  /** A nonempty chunk arriving on an idle connection is read as the buffer. */
  lemma AwaitFirstChunk(chunk: seq<bv8>, later: seq<seq<bv8>>)
    requires SplitLine(chunk).Extracted?
    ensures AwaitLine([], [chunk] + later) == Arrived(SplitLine(chunk).frame, SplitLine(chunk).rest, later)
  {
    assert |chunk| >= 2;
    assert [] + chunk == chunk;
    assert ([chunk] + later)[1..] == later;
  }

  lemma ValueLineIsNotNotFound(header: string)
    requires |header| >= 5 && header[..5] == "VALUE"
    ensures header != "NOT_FOUND"
  {
    assert header[0] == header[..5][0] == 'V';
    assert "NOT_FOUND"[0] == 'N';
  }

  /** Get after a VALUE line: the announced number of bytes is read as the value. */
  lemma GetResponseOfValue(line: string, rest: seq<bv8>, later: seq<seq<bv8>>, cmd: Command, data: seq<bv8>, more: seq<bv8>)
    requires line != "NOT_FOUND"
    requires ParseCommand(line) == Success(cmd) && cmd.action == CommandType.Value && cmd.size == |data|
    requires rest == data + CrLf + more && SplitValue(rest, |data|) == Extracted(data, more)
    ensures GetLineResponse(line, rest, later) == (Returned(Some(data)), more)
  {
    assert AwaitValue(rest, |data|, later) == Arrived(data, more, later);
  }

  /**
   * The request Set sends reaches a server as one SET line carrying the
   * normalised key, the TTL and the data length, followed by exactly the data.
   */
  lemma SetRequestReadsBack(key: string, data: seq<bv8>, ttl: int, more: seq<bv8>)
    requires IsAscii(key) && NoLineFeed(key)
    requires |data| <= Int64Max && Int64Min <= ttl <= Int64Max
    ensures var request := HeaderAndBody(GetStringCommand(Set, NormalizeKey(key), |data|, ttl), data) + more;
      && SplitLine(request).Extracted?
      && ParseCommand(Decode(SplitLine(request).frame)) == Success(Command(Set, Some(NormalizeKey(key)), ttl, |data|))
      && SplitValue(SplitLine(request).rest, |data|) == Extracted(data, more)
  {
    var nk := NormalizeKey(key);
    var line := GetStringCommand(Set, nk, |data|, ttl);
    NormalizeKeyKeepsLine(key);
    NormalizeKeyHasNoSpace(key);
    GetStringCommandIsLine(Set, nk, |data|, ttl);
    HeaderAndBodyRoundTrip(line, data, more);
    DecodeEncode(line);
    ParseGetStringCommand(Set, nk, |data|, ttl);
  }

  /** The request Get or Delete sends reaches a server as one line naming the command and the normalised key. */
  lemma KeyRequestReadsBack(t: CommandType, key: string, more: seq<bv8>)
    requires t == Get || t == Delete
    requires IsAscii(key) && NoLineFeed(key)
    ensures var request := MessageFrame(GetStringCommand(t, NormalizeKey(key), 0, 0)) + more;
      && SplitLine(request) == Extracted(Encode(GetStringCommand(t, NormalizeKey(key), 0, 0)), more)
      && ParseCommand(Decode(SplitLine(request).frame)) == Success(Command(t, Some(NormalizeKey(key)), -1, 0))
  {
    var nk := NormalizeKey(key);
    var line := GetStringCommand(t, nk, 0, 0);
    NormalizeKeyKeepsLine(key);
    NormalizeKeyHasNoSpace(key);
    GetStringCommandIsLine(t, nk, 0, 0);
    MessageRoundTrip(line, more);
    DecodeEncode(line);
    ParseGetStringCommand(t, nk, 0, 0);
  }

  // ---------------------------------------------------------------------
  // The client
  // ---------------------------------------------------------------------

  /** What GetConnectedNetworkHelper gives back. */
  datatype Acquired =
    | Unavailable                    // marked bad and the wait is not over: null
    | Ready(helper: NetworkHelper)   // an open connection, reused or new
    | ConnectFailed                  // the connect timed out or failed: marked bad, then thrown

  /** A breaker mark that still keeps the server out of use at time `now`. */
  predicate Blocked(mark: Option<int>, now: int) {
    mark.Some? && now < mark.value
  }

  /**
   * CachemanClient: `netHelpers[i]` is the connection to server i (null
   * until opened), `badServersCheck[i]` the time before which server i is
   * not tried again (None when it is not marked).
   */
  class CachemanClient {
    const netHelpers: array<NetworkHelper?>
    const badServersCheck: array<Option<int>>

    /** One mark per slot, and no connection is held in two slots. */
    ghost predicate Valid()
      reads this, netHelpers
    {
      && netHelpers.Length == badServersCheck.Length
      && forall i, j :: 0 <= i < j < netHelpers.Length && netHelpers[i] != null ==> netHelpers[i] != netHelpers[j]
    }

    ghost function Helpers(): set<NetworkHelper>
      reads this, netHelpers
    {
      set i | 0 <= i < netHelpers.Length && netHelpers[i] != null :: netHelpers[i]
    }

    /** The bytes buffered on connection i (none when it is not open). */
    ghost function Buffered(i: int): seq<bv8>
      requires 0 <= i < netHelpers.Length
      reads this, netHelpers, Helpers()
    {
      if netHelpers[i] != null then netHelpers[i].data else []
    }

    /**
     * The only connection a call for `key` may change: the one open in the
     * key's slot, if any. A connection opened by the call is new.
     */
    ghost function RoutedHelper(key: string): set<NetworkHelper>
      reads this, netHelpers
    {
      if netHelpers.Length > 0 && netHelpers[ServerIndex(NormalizeKey(key), netHelpers.Length)] != null
      then {netHelpers[ServerIndex(NormalizeKey(key), netHelpers.Length)]}
      else {}
    }

    /** Server i after an exception: slot cleared, marked bad until now + DEAD_SERVER_POLL_SECONDS. */
    ghost predicate MarkedBad(i: int, now: int)
      requires Valid() && 0 <= i < netHelpers.Length
      reads this, netHelpers, badServersCheck
    {
      netHelpers[i] == null && badServersCheck[i] == Some(now + DeadServerPollSeconds)
    }

    /** Every slot other than i is as it was. */
    ghost predicate OthersUnchanged(i: int, helpers: seq<NetworkHelper?>, marks: seq<Option<int>>)
      requires Valid()
      reads this, netHelpers, badServersCheck
    {
      && |helpers| == netHelpers.Length && |marks| == badServersCheck.Length
      && (forall j :: 0 <= j < netHelpers.Length && j != i ==> netHelpers[j] == helpers[j])
      && (forall j :: 0 <= j < badServersCheck.Length && j != i ==> badServersCheck[j] == marks[j])
    }

    constructor (serverCount: nat)
      ensures Valid() && netHelpers.Length == serverCount
      ensures forall i :: 0 <= i < serverCount ==> netHelpers[i] == null && badServersCheck[i] == None
      ensures fresh(netHelpers) && fresh(badServersCheck)
    {
      netHelpers := new NetworkHelper?[serverCount](_ => null);
      badServersCheck := new Option<int>[serverCount](_ => None);
    }

    /**
     * GetHashedServerIndex: the key hash modulo the number of servers; with
     * no servers the modulo divides by zero and throws (None).
     */
    method GetHashedServerIndex(key: string) returns (index: Option<nat>)
      ensures netHelpers.Length == 0 ==> index == None
      ensures netHelpers.Length > 0 ==> index == Some(ServerIndex(key, netHelpers.Length))
    {
      var hash := FnvOffsetBasis;
      for i := 0 to |key|
        invariant hash == KeyHash(key[..i])
      {
        assert key[..i + 1][..i] == key[..i];
        hash := CharStep(hash, key[i]);
      }
      assert key[..|key|] == key;
      if netHelpers.Length == 0 {
        return None;
      }
      return Some((hash as int) % netHelpers.Length);
    }

    /** HandleBadServer: clear slot `index` and mark it bad until now + DEAD_SERVER_POLL_SECONDS. */
    method HandleBadServer(index: int, now: int)
      requires Valid() && 0 <= index < netHelpers.Length
      modifies netHelpers, badServersCheck
      ensures Valid()
      ensures netHelpers[..] == old(netHelpers[..])[index := null]
      ensures badServersCheck[..] == old(badServersCheck[..])[index := Some(now + DeadServerPollSeconds)]
    {
      netHelpers[index] := null;
      badServersCheck[index] := Some(now + DeadServerPollSeconds);
    }

    /**
     * GetConnectedNetworkHelper: a server still marked bad is unavailable
     * and nothing changes; otherwise the mark is cleared and the open
     * connection is reused, or a connect is attempted (`connectOk` is its
     * outcome): success fills the slot, failure marks the server bad.
     */
    method GetConnectedNetworkHelper(index: int, now: int, connectOk: bool) returns (r: Acquired)
      requires Valid() && 0 <= index < netHelpers.Length
      modifies netHelpers, badServersCheck
      ensures Valid()
      ensures OthersUnchanged(index, old(netHelpers[..]), old(badServersCheck[..]))
      ensures Blocked(old(badServersCheck[index]), now) ==>
                r == Unavailable && netHelpers[index] == old(netHelpers[index])
                && badServersCheck[index] == old(badServersCheck[index])
      ensures !Blocked(old(badServersCheck[index]), now) && old(netHelpers[index]) != null ==>
                r == Ready(old(netHelpers[index])) && netHelpers[index] == old(netHelpers[index])
                && badServersCheck[index] == None
      ensures !Blocked(old(badServersCheck[index]), now) && old(netHelpers[index]) == null && connectOk ==>
                r.Ready? && fresh(r.helper) && r.helper.data == [] && netHelpers[index] == r.helper
                && badServersCheck[index] == None
      ensures !Blocked(old(badServersCheck[index]), now) && old(netHelpers[index]) == null && !connectOk ==>
                r == ConnectFailed && MarkedBad(index, now)
    {
      if badServersCheck[index].Some? {
        if now < badServersCheck[index].value {
          return Unavailable;
        } else {
          badServersCheck[index] := None;
        }
      }
      if netHelpers[index] == null {
        if !connectOk {
          HandleBadServer(index, now);
          return ConnectFailed;
        }
        var helper := new NetworkHelper();
        netHelpers[index] := helper;
      }
      return Ready(netHelpers[index]);
    }
  
    /**
     * What one public call does on server i, given the slots and marks before
     * it: a server still marked bad gives `unavailable` and nothing changes;
     * a failed connect throws and marks the server bad; otherwise `wire` is
     * sent and the reply is read, where an exception marks the server bad
     * and a result leaves the connection open with `response`'s leftover
     * bytes buffered.
     */
    ghost predicate Outcome<T>(i: int, now: int, connectOk: bool,
                               helpers: seq<NetworkHelper?>, marks: seq<Option<int>>,
                               unavailable: T, wire: seq<bv8>, response: (Reply<T>, seq<bv8>),
                               r: Reply<T>, request: seq<bv8>)
      requires Valid() && 0 <= i < netHelpers.Length
      reads this, netHelpers, badServersCheck, Helpers()
    {
      && OthersUnchanged(i, helpers, marks)
      && (Blocked(marks[i], now) ==>
            && r == Returned(unavailable) && request == []
            && netHelpers[i] == helpers[i] && badServersCheck[i] == marks[i])
      && (!Blocked(marks[i], now) && helpers[i] == null && !connectOk ==>
            r == Thrown && request == [] && MarkedBad(i, now))
      && (!Blocked(marks[i], now) && (helpers[i] != null || connectOk) ==>
            && request == wire && r == response.0
            && (r.Thrown? ==> MarkedBad(i, now))
            && (r.Returned? ==>
                  && netHelpers[i] != null && netHelpers[i].data == response.1 && badServersCheck[i] == None
                  && (helpers[i] != null ==> netHelpers[i] == helpers[i])))
    }

    /**
     * The start Set, Get and Delete share: route the normalised key, then
     * get a connection to its server. A failed connect is marked bad by
     * GetConnectedNetworkHelper and marked again by the caller's exception
     * handler, which this does too. With no servers the routing throws.
     */
    method Route(nk: string, now: int, connectOk: bool) returns (index: Option<nat>, acquired: Acquired)
      requires Valid()
      modifies netHelpers, badServersCheck
      ensures Valid()
      ensures netHelpers.Length == 0 ==>
                && index == None && acquired == Unavailable
                && netHelpers[..] == old(netHelpers[..]) && badServersCheck[..] == old(badServersCheck[..])
      ensures netHelpers.Length > 0 ==>
                && index == Some(ServerIndex(nk, netHelpers.Length))
                && OthersUnchanged(index.value, old(netHelpers[..]), old(badServersCheck[..]))
      ensures netHelpers.Length > 0 && Blocked(old(badServersCheck[index.value]), now) ==>
                && acquired == Unavailable
                && netHelpers[index.value] == old(netHelpers[index.value])
                && badServersCheck[index.value] == old(badServersCheck[index.value])
      ensures netHelpers.Length > 0 && !Blocked(old(badServersCheck[index.value]), now)
              && old(netHelpers[index.value]) == null && !connectOk ==>
                acquired == ConnectFailed && MarkedBad(index.value, now)
      ensures netHelpers.Length > 0 && !Blocked(old(badServersCheck[index.value]), now)
              && (old(netHelpers[index.value]) != null || connectOk) ==>
                && acquired.Ready? && netHelpers[index.value] == acquired.helper
                && badServersCheck[index.value] == None
                && (old(netHelpers[index.value]) != null ==> acquired.helper == old(netHelpers[index.value]))
                && (old(netHelpers[index.value]) == null ==> fresh(acquired.helper) && acquired.helper.data == [])
    {
      index := GetHashedServerIndex(nk);
      if index.None? {
        return index, Unavailable;
      }
      acquired := GetConnectedNetworkHelper(index.value, now, connectOk);
      if acquired.ConnectFailed? {
        HandleBadServer(index.value, now);
      }
    }

    /** Set's and Delete's exchange after the request is sent: one reply line, compared with `expected`. */
    static method ReadLineReply(helper: NetworkHelper, incoming: seq<seq<bv8>>, expected: string) returns (r: Reply<bool>)
      modifies helper
      ensures (r, helper.data) == LineResponse(old(helper.data), incoming, expected)
    {
      var response, _ := helper.ReadLine(incoming);
      if response.Failure? {
        return Thrown;
      }
      return Returned(response.value == expected);
    }

    /** Get's exchange after the request is sent: the reply line, then the value it announces. */
    static method ReadGetReply(helper: NetworkHelper, incoming: seq<seq<bv8>>) returns (r: Reply<Option<seq<bv8>>>)
      modifies helper
      ensures (r, helper.data) == GetResponse(old(helper.data), incoming)
    {
      var response, unread := helper.ReadLine(incoming);
      if response.Failure? {
        return Thrown;
      }
      if response.value == "NOT_FOUND" {
        return Returned(None);
      }
      var cmd := ParseCommand(response.value);
      if cmd.Failure? {
        return Thrown;
      }
      if cmd.value.action != CommandType.Value {
        return Returned(None);
      }
      var value, _ := helper.ReadValue(cmd.value.size, unread);
      if value.Failure? {
        return Thrown;
      }
      return Returned(Some(value.value));
    }

    /** Delete: send DELETE for the normalised key; true exactly when the reply is DELETED. */
    method Delete(key: string, now: int, connectOk: bool, incoming: seq<seq<bv8>>) returns (r: Reply<bool>, request: seq<bv8>)
      requires Valid()
      modifies netHelpers, badServersCheck, RoutedHelper(key)
      ensures Valid()
      ensures netHelpers.Length == 0 ==>
                && r == Thrown && request == []
                && netHelpers[..] == old(netHelpers[..]) && badServersCheck[..] == old(badServersCheck[..])
      ensures netHelpers.Length > 0 ==>
                var i := ServerIndex(NormalizeKey(key), netHelpers.Length);
                Outcome(i, now, connectOk, old(netHelpers[..]), old(badServersCheck[..]), false,
                        MessageFrame(GetStringCommand(CommandType.Delete, NormalizeKey(key), 0, 0)),
                        LineResponse(old(Buffered(i)), incoming, "DELETED"), r, request)
    {
      var nk := NormalizeKey(key);
      var index, acquired := Route(nk, now, connectOk);
      match acquired {
        case Unavailable =>
          if index.None? {
            // the handler's own GetHashedServerIndex throws again, so nothing is marked
            return Thrown, [];
          }
          return Returned(false), [];
        case ConnectFailed =>
          return Thrown, [];
        case Ready(helper) =>
          request := helper.SendMessage(GetStringCommand(CommandType.Delete, nk, 0, 0));
          r := ReadLineReply(helper, incoming, "DELETED");
          if r.Thrown? {
            HandleBadServer(index.value, now);
          }
      }
    }
  
    /**
     * Set: send the SET line for the normalised key with the data length and
     * TTL, then the data; true exactly when the reply is STORED.
     */
    method Set(key: string, data: seq<bv8>, ttl: int, now: int, connectOk: bool, incoming: seq<seq<bv8>>)
      returns (r: Reply<bool>, request: seq<bv8>)
      requires Valid()
      modifies netHelpers, badServersCheck, RoutedHelper(key)
      ensures Valid()
      ensures netHelpers.Length == 0 ==>
                && r == Thrown && request == []
                && netHelpers[..] == old(netHelpers[..]) && badServersCheck[..] == old(badServersCheck[..])
      ensures netHelpers.Length > 0 ==>
                var i := ServerIndex(NormalizeKey(key), netHelpers.Length);
                Outcome(i, now, connectOk, old(netHelpers[..]), old(badServersCheck[..]), false,
                        HeaderAndBody(GetStringCommand(CommandType.Set, NormalizeKey(key), |data|, ttl), data),
                        LineResponse(old(Buffered(i)), incoming, "STORED"), r, request)
    {
      var nk := NormalizeKey(key);
      var index, acquired := Route(nk, now, connectOk);
      match acquired {
        case Unavailable =>
          if index.None? {
            // the handler's own GetHashedServerIndex throws again, so nothing is marked
            return Thrown, [];
          }
          return Returned(false), [];
        case ConnectFailed =>
          return Thrown, [];
        case Ready(helper) =>
          request := helper.SendHeaderAndBody(GetStringCommand(CommandType.Set, nk, |data|, ttl), data);
          r := ReadLineReply(helper, incoming, "STORED");
          if r.Thrown? {
            HandleBadServer(index.value, now);
          }
      }
    }

    /**
     * Get: send GET for the normalised key; a NOT_FOUND reply or a reply
     * other than VALUE is a miss, and a VALUE reply is followed by the data.
     */
    method Get(key: string, now: int, connectOk: bool, incoming: seq<seq<bv8>>)
      returns (r: Reply<Option<seq<bv8>>>, request: seq<bv8>)
      requires Valid()
      modifies netHelpers, badServersCheck, RoutedHelper(key)
      ensures Valid()
      ensures netHelpers.Length == 0 ==>
                && r == Thrown && request == []
                && netHelpers[..] == old(netHelpers[..]) && badServersCheck[..] == old(badServersCheck[..])
      ensures netHelpers.Length > 0 ==>
                var i := ServerIndex(NormalizeKey(key), netHelpers.Length);
                Outcome(i, now, connectOk, old(netHelpers[..]), old(badServersCheck[..]), None,
                        MessageFrame(GetStringCommand(CommandType.Get, NormalizeKey(key), 0, 0)),
                        GetResponse(old(Buffered(i)), incoming), r, request)
    {
      var nk := NormalizeKey(key);
      var index, acquired := Route(nk, now, connectOk);
      match acquired {
        case Unavailable =>
          if index.None? {
            // the handler's own GetHashedServerIndex throws again, so nothing is marked
            return Thrown, [];
          }
          return Returned(None), [];
        case ConnectFailed =>
          return Thrown, [];
        case Ready(helper) =>
          request := helper.SendMessage(GetStringCommand(CommandType.Get, nk, 0, 0));
          r := ReadGetReply(helper, incoming);
          if r.Thrown? {
            HandleBadServer(index.value, now);
          }
      }
    }
  }
}
