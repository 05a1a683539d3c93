/** The command dispatcher of the key-value store over either engine. */
module KvStore {
  import opened Options
  import opened RbEngine
  import opened SkipTable

  const COMMANDS: seq<string> := ["SET", "GET", "DEL", "MOD", "EXIST"]

  /** What a request asks for: the reply, and the map afterwards.  No reply at all to an empty request. */
  function Answer(m: map<string, string>, tokens: seq<string>): Option<string> {
    if tokens == [] then None
    else if tokens[0] !in COMMANDS then Some("protocol error,please send again!\r\n")
    else if |tokens| != (if tokens[0] in ["SET", "MOD"] then 3 else 2) then Some("ERROR\r\n")
    else if tokens[0] == "SET" then Some(if tokens[1] in m then "EXIST\r\n" else "OK\r\n")
    else if tokens[0] == "GET" then Some(if tokens[1] in m then m[tokens[1]] + "\r\n" else "NO EXIST\r\n")
    else if tokens[0] == "EXIST" then Some(if tokens[1] in m then "EXIST\r\n" else "NO EXIST\r\n")
    else Some(if tokens[1] in m then "OK\r\n" else "NO EXIST\r\n")
  }

  function Effect(m: map<string, string>, tokens: seq<string>): map<string, string> {
    if |tokens| == 3 && tokens[0] == "SET" && tokens[1] !in m then m[tokens[1] := tokens[2]]
    else if |tokens| == 3 && tokens[0] == "MOD" && tokens[1] in m then m[tokens[1] := tokens[2]]
    else if |tokens| == 2 && tokens[0] == "DEL" then m - {tokens[1]}
    else m
  }

  function Answers(m: map<string, string>, requests: seq<seq<string>>): (r: seq<Option<string>>)
    ensures |r| == |requests|
    decreases |requests|
  {
    if requests == [] then [] else [Answer(m, requests[0])] + Answers(Effect(m, requests[0]), requests[1..])
  }

  function Effects(m: map<string, string>, requests: seq<seq<string>>): map<string, string>
    decreases |requests|
  {
    if requests == [] then m else Effects(Effect(m, requests[0]), requests[1..])
  }

  // ----- what the replies mean -----

  /** Requests that give a key a value, and that take it away or change it. */
  predicate Puts(t: seq<string>, key: string) { |t| == 3 && (t[0] == "SET" || t[0] == "MOD") && t[1] == key }

  predicate Adds(t: seq<string>, key: string) { |t| == 3 && t[0] == "SET" && t[1] == key }

  predicate Takes(t: seq<string>, key: string) { t == ["DEL", key] }

  predicate Alters(t: seq<string>, key: string) { Takes(t, key) || (|t| == 3 && t[0] == "MOD" && t[1] == key) }

  /** The replies about a key that has this value, and about one that has none. */
  predicate Present(t: seq<string>, key: string, value: string, reply: Option<string>) {
    && (t == ["GET", key] ==> reply == Some(value + "\r\n"))
    && (t == ["EXIST", key] || Adds(t, key) ==> reply == Some("EXIST\r\n"))
    && (Alters(t, key) ==> reply == Some("OK\r\n"))
  }

  predicate Absent(t: seq<string>, key: string, reply: Option<string>) {
    && (t == ["GET", key] || t == ["EXIST", key] || Alters(t, key) ==> reply == Some("NO EXIST\r\n"))
    && (Adds(t, key) ==> reply == Some("OK\r\n"))
  }

  /** From an accepted `SET` or `MOD` of a key until the next `DEL` or `MOD` of it, every request about the key
      is answered by that value. */
  ghost predicate Remembers(requests: seq<seq<string>>, replies: seq<Option<string>>)
    requires |requests| == |replies|
  {
    forall i, j, key :: 0 <= i < j < |requests| && Puts(requests[i], key) && replies[i] == Some("OK\r\n")
                        && (forall n :: i < n < j ==> !Alters(requests[n], key)) ==>
                          Present(requests[j], key, requests[i][2], replies[j])
  }

  /** From the beginning, and from a `DEL` of a key, until the next `SET` of it there is no such key. */
  ghost predicate Forgets(requests: seq<seq<string>>, replies: seq<Option<string>>)
    requires |requests| == |replies|
  {
    && (forall j, key :: 0 <= j < |requests| && (forall n :: 0 <= n < j ==> !Adds(requests[n], key)) ==>
          Absent(requests[j], key, replies[j]))
    && (forall i, j, key :: 0 <= i < j < |requests| && Takes(requests[i], key)
                            && (forall n :: i < n < j ==> !Adds(requests[n], key)) ==>
                              Absent(requests[j], key, replies[j]))
  }

  /** Empty requests, unknown commands and wrong numbers of arguments. */
  predicate Odd(t: seq<string>, reply: Option<string>) {
    && (t == [] <==> reply == None)
    && (t != [] && t[0] !in ["SET", "GET", "DEL", "MOD", "EXIST"] ==>
        reply == Some("protocol error,please send again!\r\n"))
    && (t != [] && t[0] in ["SET", "MOD"] && |t| != 3 ==> reply == Some("ERROR\r\n"))
    && (t != [] && t[0] in ["GET", "DEL", "EXIST"] && |t| != 2 ==> reply == Some("ERROR\r\n"))
  }

  ghost predicate Refuses(requests: seq<seq<string>>, replies: seq<Option<string>>)
    requires |requests| == |replies|
  {
    forall j :: 0 <= j < |requests| ==> Odd(requests[j], replies[j])
  }

  lemma AnswerOdd(m: map<string, string>, t: seq<string>)
    ensures Odd(t, Answer(m, t))
  {
    Names();
  }

  lemma {:induction false} AnswerAt(m: map<string, string>, requests: seq<seq<string>>, j: nat)
    requires j < |requests|
    ensures Answers(m, requests)[j] == Answer(Effects(m, requests[..j]), requests[j])
    decreases |requests|
  {
    if j > 0 {
      AnswerAt(Effect(m, requests[0]), requests[1..], j - 1);
      assert requests[..j][1..] == requests[1..][..j - 1];
    }
  }

  lemma {:induction false} EffectsAppend(m: map<string, string>, a: seq<seq<string>>, b: seq<seq<string>>)
    ensures Effects(m, a + b) == Effects(Effects(m, a), b)
    decreases |a|
  {
    if a == [] {
      assert a + b == b;
    } else {
      assert (a + b)[0] == a[0] && (a + b)[1..] == a[1..] + b;
      EffectsAppend(Effect(m, a[0]), a[1..], b);
    }
  }

  /** The map before a request, from the map before an earlier one. */
  lemma Between(m: map<string, string>, requests: seq<seq<string>>, i: nat, j: nat)
    requires i < j <= |requests|
    ensures Effects(m, requests[..j]) == Effects(Effect(Effects(m, requests[..i]), requests[i]), requests[i + 1..j])
  {
    assert requests[..j] == requests[..i] + ([requests[i]] + requests[i + 1..j]);
    EffectsAppend(m, requests[..i], [requests[i]] + requests[i + 1..j]);
    assert ([requests[i]] + requests[i + 1..j])[1..] == requests[i + 1..j];
  }

  lemma {:induction false} Keeps(m: map<string, string>, requests: seq<seq<string>>, key: string)
    ensures key in m && (forall n :: 0 <= n < |requests| ==> !Alters(requests[n], key)) ==>
              var m' := Effects(m, requests); key in m' && m'[key] == m[key]
    ensures key !in m && (forall n :: 0 <= n < |requests| ==> !Adds(requests[n], key)) ==> key !in Effects(m, requests)
    decreases |requests|
  {
    if requests != [] {
      assert forall n :: 0 <= n < |requests| - 1 ==> requests[1..][n] == requests[n + 1];
      Keeps(Effect(m, requests[0]), requests[1..], key);
    }
  }

  lemma Names()
    ensures "SET"[0] == 'S' && "GET"[0] == 'G' && "DEL"[0] == 'D' && "MOD"[0] == 'M' && "EXIST"[0] == 'E'
    ensures "OK\r\n"[0] == 'O' && "EXIST\r\n"[0] == 'E' && "NO EXIST\r\n"[0] == 'N' && "ERROR\r\n"[1] == 'R'
  {}

  lemma AnswerIs(m: map<string, string>, t: seq<string>, key: string)
    ensures key in m ==> Present(t, key, m[key], Answer(m, t))
    ensures key !in m ==> Absent(t, key, Answer(m, t))
    ensures Puts(t, key) && Answer(m, t) == Some("OK\r\n") ==> key in Effect(m, t) && Effect(m, t)[key] == t[2]
    ensures Takes(t, key) ==> key !in Effect(m, t)
  {
    Names();
  }

  /** The replies of the store mean what a client takes them to mean. */
  lemma RepliesMean(requests: seq<seq<string>>)
    ensures var replies := Answers(map[], requests);
            Remembers(requests, replies) && Forgets(requests, replies) && Refuses(requests, replies)
  {
    hide Answer, Effect, Answers, Effects;
    var replies := Answers(map[], requests);
    forall i, j, key | 0 <= i < j < |requests| && Puts(requests[i], key) && replies[i] == Some("OK\r\n")
                       && (forall n :: i < n < j ==> !Alters(requests[n], key))
      ensures Present(requests[j], key, requests[i][2], replies[j])
    {
      var m := Effects(map[], requests[..i]);
      AnswerAt(map[], requests, i);
      AnswerAt(map[], requests, j);
      Between(map[], requests, i, j);
      AnswerIs(m, requests[i], key);
      Keeps(Effect(m, requests[i]), requests[i + 1..j], key);
      AnswerIs(Effects(map[], requests[..j]), requests[j], key);
    }
    forall j, key | 0 <= j < |requests| && (forall n :: 0 <= n < j ==> !Adds(requests[n], key))
      ensures Absent(requests[j], key, replies[j])
    {
      AnswerAt(map[], requests, j);
      Keeps(map[], requests[..j], key);
      AnswerIs(Effects(map[], requests[..j]), requests[j], key);
    }
    forall i, j, key | 0 <= i < j < |requests| && Takes(requests[i], key)
      && (forall n :: i < n < j ==> !Adds(requests[n], key))
      ensures Absent(requests[j], key, replies[j])
    {
      var m := Effects(map[], requests[..i]);
      AnswerAt(map[], requests, j);
      Between(map[], requests, i, j);
      AnswerIs(m, requests[i], key);
      Keeps(Effect(m, requests[i]), requests[i + 1..j], key);
      AnswerIs(Effects(map[], requests[..j]), requests[j], key);
    }
    forall j | 0 <= j < |requests| ensures Odd(requests[j], replies[j]) {
      AnswerAt(map[], requests, j);
      AnswerOdd(Effects(map[], requests[..j]), requests[j]);
    }
  }

  // ----- the engines -----

  /** The table of operations that `init_kvengine` fills for one engine. */
  datatype Engine = RbTree(rb: RbTreeEngine) | SkipList(sk: SkipTableEngine) {
    ghost function Object(): object { if RbTree? then rb else sk }

    ghost function Repr(): set<object>
      reads Object()
    {
      if RbTree? then {rb} + rb.nodes else {sk} + sk.Nodes()
    }

    ghost predicate Valid()
      reads Object(), Repr()
    {
      if RbTree? then rb.Valid() else sk.Valid()
    }

    ghost function Map(): map<string, string>
      reads Object()
    {
      if RbTree? then rb.Map() else sk.Map()
    }

    method Set(key: string, value: string) returns (r: int)
      requires Valid()
      modifies Object(), Repr()
      ensures Valid() && fresh(Repr() - old(Repr()))
      ensures r == if key in old(Map()) then 1 else 0
      ensures Map() == if key in old(Map()) then old(Map()) else old(Map())[key := value]
    {
      match this
      case RbTree(rb) => r := rb.Set(key, value);
      case SkipList(sk) => r := sk.Set(key, value);
    }

    method Get(key: string) returns (r: Option<string>)
      requires Valid()
      ensures r == if key in Map() then Some(Map()[key]) else None
    {
      match this
      case RbTree(rb) => r := rb.Get(key);
      case SkipList(sk) => r := sk.Get(key);
    }

    method Del(key: string) returns (r: int)
      requires Valid()
      modifies Object(), Repr()
      ensures Valid() && fresh(Repr() - old(Repr()))
      ensures r == if key in old(Map()) then 0 else 1
      ensures Map() == old(Map()) - {key}
    {
      match this
      case RbTree(rb) => r := rb.Del(key);
      case SkipList(sk) => r := sk.Del(key);
    }

    method Mod(key: string, value: string) returns (r: int)
      requires Valid()
      modifies Object(), Repr()
      ensures Valid() && fresh(Repr() - old(Repr()))
      ensures r == if key in old(Map()) then 0 else 1
      ensures Map() == if key in old(Map()) then old(Map())[key := value] else old(Map())
    {
      match this
      case RbTree(rb) => r := rb.Mod(key, value);
      case SkipList(sk) => r := sk.Mod(key, value);
    }

    method Exist(key: string) returns (r: int)
      requires Valid()
      ensures r == if key in Map() then 0 else 1
    {
      match this
      case RbTree(rb) => r := rb.Exist(key);
      case SkipList(sk) => r := sk.Exist(key);
    }
  }

  lemma CommandsDiffer()
    ensures forall c, d :: 0 <= c < d < |COMMANDS| ==> COMMANDS[c] != COMMANDS[d]
  {
    assert "SET"[0] == 'S' && "GET"[0] == 'G' && "DEL"[0] == 'D' && "MOD"[0] == 'M' && "EXIST"[0] == 'E';
  }

  /** `kvs_filter_protocol`; no reply stands for the return value -1. */
  method FilterProtocol(engine: Engine, tokens: seq<string>) returns (response: Option<string>)
    requires engine.Valid()
    modifies engine.Object(), engine.Repr()
    ensures engine.Valid() && fresh(engine.Repr() - old(engine.Repr()))
    ensures response == Answer(old(engine.Map()), tokens)
    ensures engine.Map() == Effect(old(engine.Map()), tokens)
  {
    hide engine.Valid, engine.Map;
    if |tokens| == 0 {
      return None;
    }
    CommandsDiffer();
    var cmd := 0;
    while cmd < |COMMANDS|
      invariant 0 <= cmd <= |COMMANDS| && forall c :: 0 <= c < cmd ==> tokens[0] != COMMANDS[c]
    {
      if tokens[0] == COMMANDS[cmd] {
        break;
      }
      cmd := cmd + 1;
    }
    assert cmd < |COMMANDS| ==> tokens[0] == COMMANDS[cmd];
    assert cmd == |COMMANDS| ==> tokens[0] !in COMMANDS;
    var ret;
    match cmd
    case 0 =>
      if |tokens| != 3 {
        return Some("ERROR\r\n");
      }
      ret := engine.Set(tokens[1], tokens[2]);
      response := Some(if ret < 0 then "ERROR\r\n" else if ret == 0 then "OK\r\n" else "EXIST\r\n");
    case 1 =>
      if |tokens| != 2 {
        return Some("ERROR\r\n");
      }
      var result := engine.Get(tokens[1]);
      response := Some(if result == None then "NO EXIST\r\n" else result.value + "\r\n");
    case 2 =>
      if |tokens| != 2 {
        return Some("ERROR\r\n");
      }
      ret := engine.Del(tokens[1]);
      response := Some(if ret < 0 then "ERROR\r\n" else if ret == 0 then "OK\r\n" else "NO EXIST\r\n");
    case 3 =>
      if |tokens| != 3 {
        return Some("ERROR\r\n");
      }
      ret := engine.Mod(tokens[1], tokens[2]);
      response := Some(if ret < 0 then "ERROR\r\n" else if ret == 0 then "OK\r\n" else "NO EXIST\r\n");
    case 4 =>
      if |tokens| != 2 {
        return Some("ERROR\r\n");
      }
      ret := engine.Exist(tokens[1]);
      response := Some(if ret == 0 then "EXIST\r\n" else "NO EXIST\r\n");
    case _ =>
      response := Some("protocol error,please send again!\r\n");
  }

  /** A run of requests against one engine. */
  method Serve(engine: Engine, requests: seq<seq<string>>) returns (replies: seq<Option<string>>)
    requires engine.Valid()
    modifies engine.Object(), engine.Repr()
    ensures engine.Valid() && fresh(engine.Repr() - old(engine.Repr()))
    ensures replies == Answers(old(engine.Map()), requests)
    ensures engine.Map() == Effects(old(engine.Map()), requests)
  {
    if requests == [] {
      return [];
    }
    var reply := FilterProtocol(engine, requests[0]);
    var rest := Serve(engine, requests[1..]);
    replies := [reply] + rest;
  }

  method ServeByTree(requests: seq<seq<string>>) returns (replies: seq<Option<string>>)
    ensures replies == Answers(map[], requests)
  {
    var e := new RbTreeEngine();
    replies := Serve(RbTree(e), requests);
  }

  method ServeByList(requests: seq<seq<string>>) returns (replies: seq<Option<string>>)
    ensures replies == Answers(map[], requests)
  {
    var e := new SkipTableEngine();
    replies := Serve(SkipList(e), requests);
  }

  /** The engines are interchangeable: every run of requests gets the same replies from both, whatever
      levels the skip list draws. */
  method Interchangeable(requests: seq<seq<string>>) returns (byTree: seq<Option<string>>, byList: seq<Option<string>>)
    ensures byTree == byList == Answers(map[], requests)
    ensures Remembers(requests, byTree) && Forgets(requests, byTree) && Refuses(requests, byTree)
  {
    byTree := ServeByTree(requests);
    byList := ServeByList(requests);
    RepliesMean(requests);
  }

  /** The requests about one key. */
  function About(requests: seq<seq<string>>, key: string): seq<seq<string>> {
    if requests == [] then []
    else (if |requests[0]| > 1 && requests[0][1] == key then [requests[0]] else []) + About(requests[1..], key)
  }

  ghost predicate SameAt(m: map<string, string>, m': map<string, string>, key: string) {
    (key in m <==> key in m') && (key in m ==> m[key] == m'[key])
  }

  /** What a request about a key gets depends only on the earlier requests about that key. */
  lemma {:induction false} OnlyOwnKey(m: map<string, string>, m': map<string, string>, requests: seq<seq<string>>,
                                      tokens: seq<string>)
    requires |tokens| > 1 && SameAt(m, m', tokens[1])
    ensures Answer(Effects(m, requests), tokens) == Answer(Effects(m', About(requests, tokens[1])), tokens)
    decreases |requests|
  {
    var key := tokens[1];
    if requests != [] {
      var first := requests[0];
      if |first| > 1 && first[1] == key {
        assert About(requests, key) == [first] + About(requests[1..], key);
        assert ([first] + About(requests[1..], key))[1..] == About(requests[1..], key);
        OnlyOwnKey(Effect(m, first), Effect(m', first), requests[1..], tokens);
      } else {
        assert About(requests, key) == About(requests[1..], key);
        OnlyOwnKey(Effect(m, first), m', requests[1..], tokens);
      }
    }
  }
}
