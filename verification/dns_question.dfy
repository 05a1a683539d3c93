/** The question's name: the encoder, and its round trip with the parser. */
module DnsQuestion {
  import opened Options
  import opened DnsNames

  // ----- tokens, as `strtok` with the delimiter "." cuts them -----

  function SkipDots(host: seq<byte>, i: nat): (r: nat)
    requires i <= |host|
    ensures i <= r <= |host| && (r < |host| ==> host[r] != DOT)
    decreases |host| - i
  {
    if i < |host| && host[i] == DOT then SkipDots(host, i + 1) else i
  }

  function TokenEnd(host: seq<byte>, i: nat): (r: nat)
    requires i <= |host|
    ensures i <= r <= |host| && (i < |host| && host[i] != DOT ==> i < r) && (r < |host| ==> host[r] == DOT)
    decreases |host| - i
  {
    if i < |host| && host[i] != DOT then TokenEnd(host, i + 1) else i
  }

  function Tokens(host: seq<byte>, i: nat): seq<seq<byte>>
    requires i <= |host|
    decreases |host| - i
  {
    var j := SkipDots(host, i);
    if j == |host| then [] else [host[j..TokenEnd(host, j)]] + Tokens(host, TokenEnd(host, j))
  }

  /** Each label after its length byte; a `char` keeps the length modulo 256. */
  function Encoded(labels: seq<seq<byte>>): seq<byte> {
    if labels == [] then [] else [|labels[0]| % 0x100] + labels[0] + Encoded(labels[1..])
  }

  /** The encoding fits in front of the end mark: every token but the first spends its dot. */
  lemma {:induction false} EncodedFits(host: seq<byte>, i: nat)
    requires i <= |host|
    ensures |Encoded(Tokens(host, i))| <= |host| - i + if i < |host| && host[i] == DOT then 0 else 1
    decreases |host| - i
  {
    var j := SkipDots(host, i);
    if j < |host| {
      var e := TokenEnd(host, j);
      EncodedFits(host, e);
      assert Tokens(host, i)[1..] == Tokens(host, e);
      if host[i] == DOT {
        SkipsOne(host, i);
      }
    }
  }

  lemma SkipsOne(host: seq<byte>, i: nat)
    requires i < |host| && host[i] == DOT
    ensures SkipDots(host, i) > i
  {
  }

  /** `dns_create_question`'s name field: a buffer two longer than the host name, which holds the encoded
      labels and the end mark that `strncpy` writes behind the last one. */
  method CreateQuestion(host: seq<byte>) returns (length: nat, name: array<byte>)
    ensures length == name.Length == |host| + 2 && fresh(name)
    ensures var code := Encoded(Tokens(host, 0));
            |code| < |host| + 2 && name[..|code|] == code && (code != [] ==> name[|code|] == 0)
  {
    length := |host| + 2;
    name := new byte[length];
    var qname: nat := 0;
    var i: nat := 0;
    ghost var code := Encoded(Tokens(host, 0));
    EncodedFits(host, 0);
    assert |code| <= |host| + 1;
    hide TokenEnd;
    var start := SkipDots(host, i);
    while start < |host|
      invariant i <= |host| && start == SkipDots(host, i) && qname <= |code|
      invariant name[..qname] + Encoded(Tokens(host, i)) == code
      invariant qname > 0 ==> name[qname] == 0
      decreases |host| - i
    {
      var end := TokenEnd(host, start);
      var token := host[start..end];
      EncodedStep(name[..qname], host, i);
      ghost var before := name[..qname];
      name[qname] := |token| % 0x100;
      qname := qname + 1;
      assert name[..qname] == before + [|token| % 0x100];
      CopyString(name, qname, token);
      assert name[..qname + |token|] == before + [|token| % 0x100] + token by {
        Front(before + [|token| % 0x100], token, name[qname + |token| + 1..]);
      }
      qname := qname + |token|;
      i := end;
      start := SkipDots(host, i);
    }
  }

  /** `strncpy` of a whole token and the zero behind it. */
  method CopyString(name: array<byte>, pos: nat, token: seq<byte>)
    requires pos + |token| < name.Length
    modifies name
    ensures name[..] == old(name[..pos]) + token + [0] + name[pos + |token| + 1..]
  {
    Copy(name, pos, token + [0]);
  }

  lemma Front(a: seq<byte>, b: seq<byte>, c: seq<byte>)
    ensures (a + b + [0] + c)[..|a| + |b|] == a + b && (a + b + [0] + c)[|a| + |b|] == 0
  {
  }

  lemma EncodedStep(done: seq<byte>, host: seq<byte>, i: nat)
    requires i <= |host| && SkipDots(host, i) < |host|
    ensures var j := SkipDots(host, i); var e := TokenEnd(host, j); var token := host[j..e];
            done + Encoded(Tokens(host, i)) == done + [|token| % 0x100] + token + Encoded(Tokens(host, e))
  {
    var j := SkipDots(host, i);
    var e := TokenEnd(host, j);
    var token := host[j..e];
    assert Tokens(host, i) == [token] + Tokens(host, e);
    assert ([token] + Tokens(host, e))[1..] == Tokens(host, e);
    hide Tokens, SkipDots, TokenEnd;
    assert Encoded(Tokens(host, i)) == [|token| % 0x100] + token + Encoded(Tokens(host, e));
    hide *;
    Assoc4(done, [|token| % 0x100], token, Encoded(Tokens(host, e)));
  }

  lemma Assoc4(a: seq<byte>, b: seq<byte>, c: seq<byte>, d: seq<byte>)
    ensures a + (b + c + d) == a + b + c + d
  {
  }

  /** A label in the middle of a packet. */
  lemma FrontLabel(front: seq<byte>, x: byte, first: seq<byte>, tail: seq<byte>)
    ensures var chunk := front + ([x] + first + tail) + [0];
            var q := |front| + 1 + |first|;
            && chunk == (front + [x] + first) + tail + [0] && chunk[|front|] == x
            && chunk[|front| + 1..q] == first && chunk[q] == (tail + [0])[0]
  {
  }

  // ----- the round trip -----

  /** Labels the parser takes for labels: the standard's go up to 63 bytes. */
  predicate Plain(labels: seq<seq<byte>>, most: nat) {
    forall i :: 0 <= i < |labels| ==> 1 <= |labels[i]| <= most && DOT !in labels[i]
  }

  lemma {:induction false} TokenIs(host: seq<byte>, i: nat, e: nat)
    requires i < e <= |host| && DOT !in host[i..e] && (e < |host| ==> host[e] == DOT)
    ensures TokenEnd(host, i) == e && SkipDots(host, i) == i
    decreases e - i
  {
    assert host[i] == host[i..e][0];
    if i + 1 < e {
      assert host[i + 1..e] == host[i..e][1..];
      TokenIs(host, i + 1, e);
    }
  }

  /** One token, and a dot between tokens. */
  lemma FirstToken(host: seq<byte>, i: nat, e: nat)
    requires i < e <= |host| && DOT !in host[i..e] && (e < |host| ==> host[e] == DOT)
    ensures Tokens(host, i) == [host[i..e]] + Tokens(host, e)
  {
    hide TokenEnd, SkipDots;
    TokenIs(host, i, e);
  }

  lemma AfterDot(host: seq<byte>, i: nat)
    requires i < |host| && host[i] == DOT
    ensures Tokens(host, i) == Tokens(host, i + 1)
  {
    hide TokenEnd;
    assert SkipDots(host, i) == SkipDots(host, i + 1);
  }

  lemma NoToken(host: seq<byte>)
    ensures Tokens(host, |host|) == []
  {}

  lemma FirstDotted(labels: seq<seq<byte>>)
    requires labels != []
    ensures Dotted(labels) == labels[0] + if |labels| == 1 then [] else [DOT] + Dotted(labels[1..])
    ensures Encoded(labels) == [|labels[0]| % 0x100] + labels[0] + Encoded(labels[1..])
  {}

  function Undotted(s: seq<byte>): seq<byte> {
    if s == [] then [] else (if s[0] == DOT then [] else [s[0]]) + Undotted(s[1..])
  }

  function Joined(labels: seq<seq<byte>>): seq<byte> {
    if labels == [] then [] else labels[0] + Joined(labels[1..])
  }

  lemma {:induction false} Skipped(host: seq<byte>, i: nat)
    requires i <= |host|
    ensures Undotted(host[SkipDots(host, i)..]) == Undotted(host[i..])
    decreases |host| - i
  {
    if i < |host| && host[i] == DOT {
      Skipped(host, i + 1);
      assert host[i..][1..] == host[i + 1..];
    }
  }

  lemma {:induction false} Undivided(host: seq<byte>, i: nat)
    requires i <= |host|
    ensures var e := TokenEnd(host, i);
            DOT !in host[i..e] && Undotted(host[i..]) == host[i..e] + Undotted(host[e..])
    decreases |host| - i
  {
    if i < |host| && host[i] != DOT {
      Undivided(host, i + 1);
      var e := TokenEnd(host, i + 1);
      assert host[i..][1..] == host[i + 1..] && host[i..e] == [host[i]] + host[i + 1..e];
    } else {
      assert host[i..i] + Undotted(host[i..]) == Undotted(host[i..]);
    }
  }

  /** Wherever the dots of a host name are, its tokens are non-empty, hold no dot, and hold everything else. */
  lemma {:induction false} TokensKeep(host: seq<byte>, i: nat)
    requires i <= |host|
    ensures Joined(Tokens(host, i)) == Undotted(host[i..])
    ensures forall t :: t in Tokens(host, i) ==> t != [] && DOT !in t
    decreases |host| - i
  {
    hide TokenEnd, SkipDots;
    var j := SkipDots(host, i);
    Skipped(host, i);
    if j == |host| {
      assert host[j..] == [];
    } else {
      var e := TokenEnd(host, j);
      Undivided(host, j);
      TokensKeep(host, e);
      assert Tokens(host, i)[1..] == Tokens(host, e) && Tokens(host, i)[0] == host[j..e];
    }
  }

  /** The tokens of a host name are its labels. */
  lemma {:induction false} TokensOfDotted(front: seq<byte>, labels: seq<seq<byte>>)
    requires Plain(labels, 191)
    ensures Tokens(front + Dotted(labels), |front|) == labels
    ensures |Encoded(labels)| == if labels == [] then 0 else |Dotted(labels)| + 1
    decreases |labels|
  {
    hide Tokens, Dotted;
    if labels == [] {
      DottedNone(front);
    } else {
      hide Encoded;
      var host := front + Dotted(labels);
      var first, rest := labels[0], labels[1..];
      var e := |front| + |first|;
      FirstDotted(labels);
      assert host[|front|..e] == first;
      TokensOfDotted(front + first + [DOT], rest);
      if rest == [] {
        DottedNone(front);
        FirstToken(host, |front|, e);
        NoToken(host);
      } else {
        Assoc4(front, first, [DOT], Dotted(rest));
        assert host == (front + first + [DOT]) + Dotted(rest);
        FirstToken(host, |front|, e);
        AfterDot(host, e);
      }
      assert labels == [first] + rest;
    }
  }

  lemma DottedNone(front: seq<byte>)
    ensures Dotted([]) == [] && Encoded([]) == [] && Tokens(front + [], |front|) == []
  {}

  /** One label of the parser, from the text after it. */
  lemma ParseOne(chunk: seq<byte>, p: nat, q: nat, text: seq<byte>)
    requires p < q < |chunk| && 0 < chunk[p] < 0xC0 && q == p + 1 + chunk[p] && Parse(chunk, q, {}) == Text(text)
    ensures Parse(chunk, p, {}) == Text(chunk[p + 1..q] + (if chunk[q] != 0 then [DOT] else []) + text)
  {
    hide Offsets;
  }

  lemma ParseNone(front: seq<byte>)
    ensures Parse(front + [] + [0], |front|, {}) == Text([])
  {
    hide Offsets;
  }

  /** Parsing the encoded labels, wherever they stand in a packet, gives them back with dots. */
  lemma {:induction false} ParseEncoded(front: seq<byte>, labels: seq<seq<byte>>)
    requires Plain(labels, 191)
    ensures Parse(front + Encoded(labels) + [0], |front|, {}) == Text(Dotted(labels))
    decreases |labels|
  {
    hide Parse, Encoded, Dotted;
    if labels == [] {
      DottedNone(front);
      ParseNone(front);
    } else {
      var chunk := front + Encoded(labels) + [0];
      var first, rest := labels[0], labels[1..];
      var q := |front| + 1 + |first|;
      FirstDotted(labels);
      FrontLabel(front, |first|, first, Encoded(rest));
      ParseEncoded(front + [|first|] + first, rest);
      if rest == [] {
        DottedNone(front);
      } else {
        FirstDotted(rest);
      }
      assert chunk[q] == if rest == [] then 0 else |rest[0]|;
      ParseOne(chunk, |front|, q, Dotted(rest));
      assert first + [] + [] == first && first + [DOT] + Dotted(rest) == first + ([DOT] + Dotted(rest));
    }
  }

  /** Labels of standard length are a standard name. */
  lemma {:induction false} EncodedIsName(front: seq<byte>, labels: seq<seq<byte>>, start: nat)
    requires Plain(labels, 63)
    ensures NameAt(front + Encoded(labels) + [0], start, |front|) == Some(labels)
    decreases |labels|
  {
    var chunk := front + Encoded(labels) + [0];
    if labels != [] {
      var first, rest := labels[0], labels[1..];
      var head := front + [|first|] + first;
      assert Encoded(labels) == [|first|] + first + Encoded(rest);
      FrontLabel(front, |first|, first, Encoded(rest));
      EncodedIsName(head, rest, start);
      hide Encoded;
      assert labels == [first] + rest;
    }
  }

  lemma WholeName(name: seq<byte>, code: seq<byte>)
    requires |name| == |code| + 1 && name[..|code|] == code && name[|code|] == 0
    ensures name == [] + code + [0]
  {
  }

  /** Host names round trip: parsing the question's name gives back the host name and its length. */
  method RoundTrip(host: seq<byte>, ghost labels: seq<seq<byte>>) returns (text: seq<byte>, len: nat)
    requires labels != [] && Plain(labels, 191) && host == Dotted(labels)
    ensures text == host && len == |host|
  {
    hide Tokens, Encoded, Dotted, Parse, Plain;
    TokensOfDotted([], labels);
    assert [] + host == host;
    var length, name := CreateQuestion(host);
    ParseEncoded([], labels);
    assert |Encoded(labels)| == |host| + 1;
    WholeName(name[..], Encoded(labels));
    var out := new byte[length];
    len := ParseName(name[..], 0, out, 0, {});
    assert out[..][..len] == host;
    text := out[..len];
  }
}
