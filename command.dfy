/**
 * The command grammar of common/Command.cs: a line of space-separated
 * tokens `KEYWORD key [size [ttl]]`, parsed by ParseCommand and printed by
 * GetStringCommand.
 */
module Commands {
  import opened Wrappers
  import Ascii
  import Network

  /** CommandType. */
  datatype CommandType = Get | Set | Delete | Value | ServerError

  /** CommandType.ToString(): the keyword on the wire. */
  function Keyword(t: CommandType): string {
    match t
    case Get => "GET"
    case Set => "SET"
    case Delete => "DELETE"
    case Value => "VALUE"
    case ServerError => "SERVER_ERROR"
  }

  /** Enum.Parse over the five keywords, case-sensitively. */
  function ParseKeyword(s: string): (r: Option<CommandType>)
    ensures r.Some? ==> Keyword(r.value) == s
    ensures forall t :: Keyword(t) == s ==> r == Some(t)
  {
    if s == "GET" then Some(Get)
    else if s == "SET" then Some(Set)
    else if s == "DELETE" then Some(Delete)
    else if s == "VALUE" then Some(Value)
    else if s == "SERVER_ERROR" then Some(ServerError)
    else None
  }

  /** A parsed command; `key` is None (null) for SERVER_ERROR. */
  datatype Command = Command(action: CommandType, key: Option<string>, ttl: int, size: int)

  /** Why ParseCommand throws: unknown keyword, a token index past the end, or a bad number. */
  datatype ParseError = UnknownCommand | MissingToken | BadNumber

  predicate HasSize(t: CommandType) { t == Set || t == Value }

  // ---------------------------------------------------------------------
  // String.Split(' ') and its inverse
  // ---------------------------------------------------------------------

  /** String.Split(' '): every space separates two tokens, so empty tokens are kept. */
  function Split(s: string): (r: seq<string>)
    ensures |r| >= 1
    ensures forall i :: 0 <= i < |r| ==> ' ' !in r[i]
    decreases |s|
  {
    if s == [] then [""]
    else if s[0] == ' ' then [""] + Split(s[1..])
    else
      var t := Split(s[1..]);
      [[s[0]] + t[0]] + t[1..]
  }

  /** The tokens glued back together with single spaces. */
  function Join(tokens: seq<string>): string
    requires |tokens| >= 1
  {
    if |tokens| == 1 then tokens[0] else tokens[0] + " " + Join(tokens[1..])
  }

  lemma {:induction false} SplitSpaceFree(a: string)
    requires ' ' !in a
    ensures Split(a) == [a]
    decreases |a|
  {
    if a != [] {
      assert a[0] != ' ' && ' ' !in a[1..];
      SplitSpaceFree(a[1..]);
      assert [a[0]] + a[1..] == a;
    }
  }

  lemma {:induction false} SplitFirstToken(a: string, rest: string)
    requires ' ' !in a
    ensures Split(a + " " + rest) == [a] + Split(rest)
    decreases |a|
  {
    var s := a + " " + rest;
    if a == [] {
      assert s[0] == ' ' && s[1..] == rest;
    } else {
      assert s[0] == a[0] && a[0] != ' ';
      assert s[1..] == a[1..] + " " + rest;
      assert ' ' !in a[1..];
      SplitFirstToken(a[1..], rest);
      assert [a[0]] + a[1..] == a;
    }
  }

  /** Splitting space-free tokens joined by spaces gives the tokens back. */
  lemma {:induction false} SplitJoin(tokens: seq<string>)
    requires |tokens| >= 1
    requires forall i :: 0 <= i < |tokens| ==> ' ' !in tokens[i]
    ensures Split(Join(tokens)) == tokens
    decreases |tokens|
  {
    if |tokens| == 1 {
      SplitSpaceFree(tokens[0]);
    } else {
      SplitFirstToken(tokens[0], Join(tokens[1..]));
      SplitJoin(tokens[1..]);
      assert [tokens[0]] + tokens[1..] == tokens;
    }
  }

  lemma {:induction false} JoinPrepend(c: string, t: seq<string>)
    requires |t| >= 1
    ensures Join([c + t[0]] + t[1..]) == c + Join(t)
  {
    var u := [c + t[0]] + t[1..];
    if |t| > 1 {
      assert u[1..] == t[1..];
    }
  }

  /** Splitting loses nothing: joining the tokens rebuilds the line. */
  lemma {:induction false} JoinSplit(s: string)
    ensures Join(Split(s)) == s
    decreases |s|
  {
    if s != [] {
      JoinSplit(s[1..]);
      if s[0] == ' ' {
        assert ([""] + Split(s[1..]))[1..] == Split(s[1..]);
        assert s == " " + s[1..];
      } else {
        JoinPrepend([s[0]], Split(s[1..]));
        assert s == [s[0]] + s[1..];
      }
    }
  }

  // ---------------------------------------------------------------------
  // ParseCommand and GetStringCommand
  // ---------------------------------------------------------------------

  /**
   * ParseCommand: the first token names the command; every command but
   * SERVER_ERROR takes the second token as its key; SET and VALUE read a
   * size from the third; only SET reads a TTL, from a fourth token when
   * there is one. TTL defaults to -1 and size to 0.
   */
  function ParseCommand(cmd: string): (r: Result<Command, ParseError>)
    ensures var tokens := Split(cmd);
      && (ParseKeyword(tokens[0]).None? <==> r == Failure(UnknownCommand))
      && (r.Success? ==> Keyword(r.value.action) == tokens[0])
      && (r.Success? && r.value.action == ServerError ==> r.value.key == None)
      && (r.Success? && r.value.action != ServerError ==> |tokens| >= 2 && r.value.key == Some(tokens[1]))
      && (r == Failure(MissingToken) <==>
            ParseKeyword(tokens[0]).Some? && ParseKeyword(tokens[0]) != Some(ServerError)
            && (|tokens| < 2 || (HasSize(ParseKeyword(tokens[0]).value) && |tokens| < 3)))
      && (r == Failure(BadNumber) <==>
            ParseKeyword(tokens[0]).Some? && HasSize(ParseKeyword(tokens[0]).value) && |tokens| >= 3
            && (Ascii.ParseInt64(tokens[2]).None?
                || (ParseKeyword(tokens[0]) == Some(Set) && |tokens| >= 4 && Ascii.ParseInt64(tokens[3]).None?)))
      && (r.Success? <==>
            ParseKeyword(tokens[0]).Some?
            && (ParseKeyword(tokens[0]) == Some(ServerError)
                || (|tokens| >= 2
                    && (!HasSize(ParseKeyword(tokens[0]).value)
                        || (|tokens| >= 3 && Ascii.ParseInt64(tokens[2]).Some?
                            && (ParseKeyword(tokens[0]) != Some(Set) || |tokens| < 4
                                || Ascii.ParseInt64(tokens[3]).Some?))))))
      && (r.Success? && HasSize(r.value.action) ==> |tokens| >= 3 && ParseInt64Is(tokens[2], r.value.size))
      && (r.Success? && !HasSize(r.value.action) ==> r.value.size == 0)
      && (r.Success? && r.value.action == Set && |tokens| >= 4 ==> ParseInt64Is(tokens[3], r.value.ttl))
      && (r.Success? && !(r.value.action == Set && |tokens| >= 4) ==> r.value.ttl == -1)
  {
    var components := Split(cmd);
    match ParseKeyword(components[0])
    case None => Failure(UnknownCommand)
    case Some(cmdType) =>
      if cmdType == ServerError then Success(Command(cmdType, None, -1, 0))
      else if |components| < 2 then Failure(MissingToken)
      else
        var key := components[1];
        if !HasSize(cmdType) then Success(Command(cmdType, Some(key), -1, 0))
        else if |components| < 3 then Failure(MissingToken)
        else match Ascii.ParseInt64(components[2])
          case None => Failure(BadNumber)
          case Some(size) =>
            if cmdType == Set && |components| >= 4 then
              match Ascii.ParseInt64(components[3])
              case None => Failure(BadNumber)
              case Some(ttl) => Success(Command(cmdType, Some(key), ttl, size))
            else Success(Command(cmdType, Some(key), -1, size))
  }

  predicate ParseInt64Is(token: string, v: int) {
    Ascii.ParseInt64(token) == Some(v)
  }

  /** GetStringCommand: keyword and key, then the size for SET and VALUE, then the TTL for SET. */
  function GetStringCommand(commandType: CommandType, key: string, size: int, ttl: int): (r: string)
    ensures |r| >= |Keyword(commandType)| + 1 + |key|
    ensures !HasSize(commandType) <==> |r| == |Keyword(commandType)| + 1 + |key|
  {
    var result := Keyword(commandType) + " " + key;
    var result := if HasSize(commandType) then result + " " + Ascii.IntToString(size) else result;
    if commandType == Set then result + " " + Ascii.IntToString(ttl) else result
  }

  /** The tokens GetStringCommand writes. */
  function CommandTokens(commandType: CommandType, key: string, size: int, ttl: int): (r: seq<string>)
    ensures |r| >= 2
  {
    [Keyword(commandType), key]
      + (if HasSize(commandType) then [Ascii.IntToString(size)] else [])
      + (if commandType == Set then [Ascii.IntToString(ttl)] else [])
  }

  lemma JoinTwo(a: string, b: string)
    ensures Join([a, b]) == a + " " + b
  {
    assert [a, b][1..] == [b];
  }

  lemma JoinThree(a: string, b: string, c: string)
    ensures Join([a, b, c]) == a + " " + b + " " + c
  {
    assert [a, b, c][1..] == [b, c];
    JoinTwo(b, c);
  }

  lemma JoinFour(a: string, b: string, c: string, d: string)
    ensures Join([a, b, c, d]) == a + " " + b + " " + c + " " + d
  {
    assert [a, b, c, d][1..] == [b, c, d];
    JoinThree(b, c, d);
  }

  lemma GetStringCommandTokens(commandType: CommandType, key: string, size: int, ttl: int)
    ensures GetStringCommand(commandType, key, size, ttl) == Join(CommandTokens(commandType, key, size, ttl))
  {
    var k := Keyword(commandType);
    var s := Ascii.IntToString(size);
    var t := Ascii.IntToString(ttl);
    if commandType == Set {
      assert CommandTokens(commandType, key, size, ttl) == [k, key, s, t];
      JoinFour(k, key, s, t);
    } else if commandType == Value {
      assert CommandTokens(commandType, key, size, ttl) == [k, key, s];
      JoinThree(k, key, s);
    } else {
      assert CommandTokens(commandType, key, size, ttl) == [k, key];
      JoinTwo(k, key);
    }
  }

  /** For a space-free key, splitting the printed command gives back exactly the tokens written. */
  lemma GetStringCommandSplits(commandType: CommandType, key: string, size: int, ttl: int)
    requires ' ' !in key
    ensures Split(GetStringCommand(commandType, key, size, ttl)) == CommandTokens(commandType, key, size, ttl)
  {
    var tokens := CommandTokens(commandType, key, size, ttl);
    Ascii.IntToStringHasNoSpace(size);
    Ascii.IntToStringHasNoSpace(ttl);
    assert ' ' !in Keyword(commandType);
    GetStringCommandTokens(commandType, key, size, ttl);
    SplitJoin(tokens);
  }

  /**
   * Round trip: for a space-free key and 64-bit size and TTL, parsing what
   * GetStringCommand printed gives back the kind and key, the size for SET
   * and VALUE and the TTL for SET, with the defaults elsewhere.
   */
  lemma ParseGetStringCommand(commandType: CommandType, key: string, size: int, ttl: int)
    requires ' ' !in key
    requires Ascii.Int64Min <= size <= Ascii.Int64Max && Ascii.Int64Min <= ttl <= Ascii.Int64Max
    ensures ParseCommand(GetStringCommand(commandType, key, size, ttl))
         == Success(Command(commandType,
                            if commandType == ServerError then None else Some(key),
                            if commandType == Set then ttl else -1,
                            if HasSize(commandType) then size else 0))
  {
    var line := GetStringCommand(commandType, key, size, ttl);
    var tokens := CommandTokens(commandType, key, size, ttl);
    GetStringCommandSplits(commandType, key, size, ttl);
    assert ParseKeyword(tokens[0]) == Some(commandType);
    if HasSize(commandType) {
      Ascii.ParseIntToString(size);
      assert tokens[2] == Ascii.IntToString(size);
    }
    if commandType == Set {
      Ascii.ParseIntToString(ttl);
      assert |tokens| == 4 && tokens[3] == Ascii.IntToString(ttl);
    } else {
      assert |tokens| < 4;
    }
  }

  /**
   * The VALUE header a server sends parses, on the client, to a VALUE
   * command with the key and the data length; the checksum token is never
   * read as a TTL.
   */
  lemma ParseValueHeader(key: string, data: seq<bv8>)
    requires ' ' !in key
    requires |data| <= Ascii.Int64Max
    ensures ParseCommand(Network.ValueHeader(key, data)) == Success(Command(Value, Some(key), -1, |data|))
  {
    var sizeToken := Ascii.IntToString(|data|);
    var sumToken := Ascii.IntToString(Network.Fnv1(data) as int);
    var tokens := ["VALUE", key, sizeToken, sumToken];
    Ascii.IntToStringHasNoSpace(|data|);
    Ascii.IntToStringHasNoSpace(Network.Fnv1(data) as int);
    assert tokens[1..][1..][1..] == [sumToken];
    assert Join(tokens[1..][1..]) == sizeToken + " " + sumToken;
    assert Join(tokens[1..]) == key + " " + (sizeToken + " " + sumToken);
    assert Network.ValueHeader(key, data) == Join(tokens);
    SplitJoin(tokens);
    Ascii.ParseIntToString(|data|);
  }

  /** ASCII text without LF, the property a command line must have. */
  predicate IsLine(s: string) { Ascii.IsAscii(s) && Network.NoLineFeed(s) }

  lemma LineConcat(a: string, b: string)
    requires IsLine(a) && IsLine(b)
    ensures IsLine(a + b)
  {
    assert forall i :: 0 <= i < |a + b| ==> (a + b)[i] == if i < |a| then a[i] else b[i - |a|];
  }

  lemma NumberIsLine(n: int)
    ensures IsLine(Ascii.IntToString(n))
  {
    Ascii.IntToStringChars(n);
  }

  /** A command line printed for an ASCII key without LF is itself one ASCII line. */
  lemma GetStringCommandIsLine(commandType: CommandType, key: string, size: int, ttl: int)
    requires Ascii.IsAscii(key) && Network.NoLineFeed(key)
    ensures Ascii.IsAscii(GetStringCommand(commandType, key, size, ttl))
    ensures Network.NoLineFeed(GetStringCommand(commandType, key, size, ttl))
  {
    var k := Keyword(commandType);
    assert IsLine(k) && IsLine(" ");
    LineConcat(k, " ");
    LineConcat(k + " ", key);
    var result := k + " " + key;
    if HasSize(commandType) {
      NumberIsLine(size);
      LineConcat(result, " ");
      LineConcat(result + " ", Ascii.IntToString(size));
      result := result + " " + Ascii.IntToString(size);
    }
    if commandType == Set {
      NumberIsLine(ttl);
      LineConcat(result, " ");
      LineConcat(result + " ", Ascii.IntToString(ttl));
    }
  }
}
