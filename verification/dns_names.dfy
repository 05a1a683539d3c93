/** Domain names on the wire: the name encoder of a question and the parser of compressed names
    (sections 3.1 and 4.1.4 of RFC 1035). */
module DnsNames {
  import opened Options
  import opened Seqs

  type byte = b: int | 0 <= b < 0x100

  const DOT: byte := 46

  // ----- what the standard says a name is -----

  /** The labels of the name at `p`, in a run that began at `start`: a label is 1 to 63 bytes, and a
      pointer's 14-bit offset must lead to an earlier place. */
  function NameAt(chunk: seq<byte>, start: nat, p: nat): Option<seq<seq<byte>>>
    decreases start, |chunk| - p
  {
    if p >= |chunk| then None
    else if chunk[p] == 0 then Some([])
    else if IsPointer(chunk[p]) then
      if p + 1 < |chunk| && Target(chunk, p) < start then NameAt(chunk, Target(chunk, p), Target(chunk, p)) else None
    else if chunk[p] < 64 && p + 1 + chunk[p] <= |chunk| then
      match NameAt(chunk, start, p + 1 + chunk[p])
      case None => None
      case Some(rest) => Some([chunk[p + 1..p + 1 + chunk[p]]] + rest)
    else None
  }

  /** The two high bits are set. */
  predicate IsPointer(flag: byte) { flag >= 0xC0 }

  function Target(chunk: seq<byte>, p: nat): nat
    requires p + 1 < |chunk| && IsPointer(chunk[p])
  {
    (chunk[p] as int - 0xC0) * 0x100 + chunk[p + 1] as int
  }

  /** A name in text: its labels with a dot between each two. */
  function Dotted(labels: seq<seq<byte>>): seq<byte> {
    if labels == [] then []
    else if |labels| == 1 then labels[0]
    else labels[0] + [DOT] + Dotted(labels[1..])
  }

  /** Every pointer on the way is to an offset below 256. */
  predicate ShortPointers(chunk: seq<byte>, start: nat, p: nat)
    requires NameAt(chunk, start, p).Some?
    decreases start, |chunk| - p
  {
    if chunk[p] == 0 then true
    else if IsPointer(chunk[p]) then
      chunk[p] == 0xC0 && ShortPointers(chunk, Target(chunk, p), Target(chunk, p))
    else ShortPointers(chunk, start, p + 1 + chunk[p])
  }

  /** The last label is followed by a pointer, hence by a pointer to an empty name. */
  predicate EndsByPointer(chunk: seq<byte>, start: nat, p: nat)
    requires NameAt(chunk, start, p).Some?
    decreases start, |chunk| - p
  {
    if chunk[p] == 0 then false
    else if IsPointer(chunk[p]) then EndsByPointer(chunk, Target(chunk, p), Target(chunk, p))
    else
      var q := p + 1 + chunk[p];
      (NameAt(chunk, start, q) == Some([]) && IsPointer(chunk[q])) || EndsByPointer(chunk, start, q)
  }

  // ----- what the parser does -----

  datatype Outcome = Text(text: seq<byte>) | Overrun | Loops

  predicate IsOffset(n: nat) { n < 0x100 }

  ghost function Offsets(): set<nat> { set n: nat | n < 0x100 && IsOffset(n) }

  /** The parser's text from `p` on.  It takes the byte after a pointer mark as the whole offset, and it
      comes back to the same place for ever once it follows the same offset twice. */
  ghost function Parse(chunk: seq<byte>, p: nat, seen: set<nat>): Outcome
    decreases |Offsets() - seen|, |chunk| - p
  {
    if p >= |chunk| then Overrun
    else if chunk[p] == 0 then Text([])
    else if IsPointer(chunk[p]) then
      if p + 1 >= |chunk| then Overrun
      else
        var n: nat := chunk[p + 1];
        if n in seen then Loops
        else
          Fewer(seen, n);
          Parse(chunk, n, seen + {n})
    else if p + 1 + chunk[p] >= |chunk| then Overrun
    else
      var q := p + 1 + chunk[p];
      match Parse(chunk, q, seen)
      case Text(rest) => Text(chunk[p + 1..q] + (if chunk[q] != 0 then [DOT] else []) + rest)
      case other => other
  }

  lemma Fewer(seen: set<nat>, n: nat)
    requires n < 0x100 && n !in seen
    ensures |Offsets() - (seen + {n})| < |Offsets() - seen|
  {
    assert IsOffset(n) && Offsets() - seen == Offsets() - (seen + {n}) + {n};
  }

  lemma ParseLabel(chunk: seq<byte>, p: nat, seen: set<nat>, done: seq<byte>)
    requires p < |chunk| && 0 < chunk[p] < 0xC0 && Parse(chunk, p, seen).Text?
    ensures var q := p + 1 + chunk[p];
            && q < |chunk| && Parse(chunk, q, seen).Text?
            && |Parse(chunk, p, seen).text| == chunk[p] as int + (if chunk[q] != 0 then 1 else 0)
                + |Parse(chunk, q, seen).text|
            && done + Parse(chunk, p, seen).text
            == (if chunk[q] != 0 then (done + chunk[p + 1..q]) + [DOT] else done + chunk[p + 1..q])
                + Parse(chunk, q, seen).text
  {
    hide Offsets;
  }

  /** A buffer after `data` was written at `pos`. */
  function Patched(buffer: seq<byte>, pos: nat, data: seq<byte>): (r: seq<byte>)
    requires pos + |data| <= |buffer|
    ensures |r| == |buffer| && (data == [] ==> r == buffer)
  {
    buffer[..pos] + data + buffer[pos + |data|..]
  }

  lemma PatchedMore(buffer: seq<byte>, pos: nat, data: seq<byte>, more: seq<byte>)
    requires pos + |data| + |more| <= |buffer|
    ensures Patched(Patched(buffer, pos, data), pos + |data|, more) == Patched(buffer, pos, data + more)
  {
  }

  /** `dns_parse_name`, appending to `out` at `len0`. */
  method ParseName(chunk: seq<byte>, start: nat, out: array<byte>, len0: nat, ghost seen: set<nat>) returns (len: nat)
    requires Parse(chunk, start, seen).Text? && len0 + |Parse(chunk, start, seen).text| <= out.Length
    modifies out
    ensures len == len0 + |Parse(chunk, start, seen).text|
    ensures out[..] == Patched(old(out[..]), len0, Parse(chunk, start, seen).text)
    decreases |Offsets() - seen|
  {
    hide Patched, Offsets;
    var ptr, pos := start, len0;
    len := len0;
    ghost var before := out[..];
    ghost var done: seq<byte> := [];
    ghost var text := Parse(chunk, start, seen).text;
    while true
      invariant Parse(chunk, ptr, seen).Text? && text == done + Parse(chunk, ptr, seen).text
      invariant pos == len == len0 + |done| && out[..] == Patched(before, len0, done)
      decreases |chunk| - ptr
    {
      var flag: nat := chunk[ptr];
      if flag == 0 {
        assert Parse(chunk, ptr, seen).text == [] && text == done;
        break;
      }
      if IsPointer(flag) {
        var n: nat := chunk[ptr + 1];
        Fewer(seen, n);
        assert Parse(chunk, ptr, seen) == Parse(chunk, n, seen + {n});
        PatchedMore(before, len0, done, Parse(chunk, n, seen + {n}).text);
        len := ParseName(chunk, n, out, len, seen + {n});
        done := text;
        break;
      }
      ParseLabel(chunk, ptr, seen, done);
      ptr := ptr + 1;
      PatchedMore(before, len0, done, chunk[ptr..ptr + flag]);
      Copy(out, pos, chunk[ptr..ptr + flag]);
      done := done + chunk[ptr..ptr + flag];
      pos := pos + flag;
      ptr := ptr + flag;
      len := len + flag;
      if chunk[ptr] != 0 {
        PatchedMore(before, len0, done, [DOT]);
        Copy(out, pos, [DOT]);
        done := done + [DOT];
        pos := pos + 1;
        len := len + 1;
      }
    }
  }

  /** `memcpy`. */
  method Copy(out: array<byte>, pos: nat, data: seq<byte>)
    requires pos + |data| <= out.Length
    modifies out
    ensures out[..] == Patched(old(out[..]), pos, data)
  {
    forall i | 0 <= i < |data| {
      out[pos + i] := data[i];
    }
    assert forall i :: 0 <= i < out.Length ==>
      out[i] == if pos <= i < pos + |data| then data[i - pos] else old(out[i]);
  }

  // ----- the parser against the standard -----

  /** The parser's text of a standard name whose pointers are short: its labels with dots between, and
      one dot too many exactly when a pointer to an empty name ends it. */
  lemma {:induction false} ParsedMeaning(chunk: seq<byte>, start: nat, p: nat, seen: set<nat>)
    requires NameAt(chunk, start, p).Some? && ShortPointers(chunk, start, p)
    requires forall n :: n in seen ==> n >= start
    ensures Parse(chunk, p, seen)
         == Text(Dotted(NameAt(chunk, start, p).value) + if EndsByPointer(chunk, start, p) then [DOT] else [])
    decreases start, |chunk| - p
  {
    if chunk[p] == 0 {
    } else if IsPointer(chunk[p]) {
      var t := Target(chunk, p);
      Fewer(seen, t);
      ParsedMeaning(chunk, t, t, seen + {t});
    } else {
      var q := p + 1 + chunk[p];
      ParsedMeaning(chunk, start, q, seen);
      var rest := NameAt(chunk, start, q).value;
      var tail := if EndsByPointer(chunk, start, q) then [DOT] else [];
      if rest == [] {
        EmptyName(chunk, start, q);
      }
      DottedLabel(chunk[p + 1..q], rest, tail);
      assert NameAt(chunk, start, p).value == [chunk[p + 1..q]] + rest;
    }
  }

  lemma DottedLabel(first: seq<byte>, rest: seq<seq<byte>>, tail: seq<byte>)
    ensures rest == [] ==> Dotted([first] + rest) == first
    ensures rest != [] ==> first + [DOT] + (Dotted(rest) + tail) == Dotted([first] + rest) + tail
  {
    assert ([first] + rest)[1..] == rest;
    Assoc(first + [DOT], Dotted(rest), tail);
  }

  /** A name without labels is an end mark, or a pointer to such a name. */
  lemma {:induction false} EmptyName(chunk: seq<byte>, start: nat, p: nat)
    requires NameAt(chunk, start, p) == Some([])
    ensures !EndsByPointer(chunk, start, p) && (chunk[p] == 0 || IsPointer(chunk[p]))
    decreases start, |chunk| - p
  {
    if IsPointer(chunk[p]) {
      EmptyName(chunk, Target(chunk, p), Target(chunk, p));
    }
  }

  /** So the text is the name's exactly when no pointer to an empty name ends it. */
  lemma ReadsBack(chunk: seq<byte>, p: nat)
    requires NameAt(chunk, p, p).Some? && ShortPointers(chunk, p, p)
    ensures Parse(chunk, p, {}) == Text(Dotted(NameAt(chunk, p, p).value)) <==> !EndsByPointer(chunk, p, p)
  {
    ParsedMeaning(chunk, p, p, {});
  }

  /** A pointer beyond offset 255 is followed to the wrong place: here to an end mark instead of the
      name `a`. */
  lemma FarPointerMisread(chunk: seq<byte>)
    requires |chunk| == 262 && chunk[256..] == [1, 97, 0, 0, 0xC1, 0] && chunk[0] == 0
    ensures NameAt(chunk, 260, 260) == Some([[97]]) && Parse(chunk, 260, {}) == Text([])
  {
    assert chunk[256..][0] == chunk[256] && chunk[256..][1] == chunk[257] && chunk[256..][2] == chunk[258];
    assert chunk[256..][4] == chunk[260] && chunk[256..][5] == chunk[261];
    assert chunk[256] == 1 && chunk[257] == 97 && chunk[258] == 0 && chunk[260] == 0xC1 && chunk[261] == 0
      && chunk[0] == 0;
    assert Target(chunk, 260) == 256;
    assert NameAt(chunk, 256, 258) == Some([]);
    assert chunk[257..258] == [97];
    assert NameAt(chunk, 256, 256) == Some([chunk[257..258]] + []);
    assert [chunk[257..258]] + [] == [[97]];
    assert NameAt(chunk, 260, 260) == NameAt(chunk, 256, 256);
    Fewer({}, 0);
    assert Parse(chunk, 0, {} + {0}) == Text([]);
    assert Parse(chunk, 260, {}) == Text([]);
  }

  // ----- when the parser stops -----

  /** The offset that the run of labels from `p` jumps to, if it ends by a pointer. */
  function Jump(chunk: seq<byte>, p: nat): (r: Option<nat>)
    ensures r.Some? ==> r.value < 0x100
    decreases |chunk| - p
  {
    if p >= |chunk| || chunk[p] == 0 then None
    else if IsPointer(chunk[p]) then if p + 1 < |chunk| then Some(chunk[p + 1]) else None
    else Jump(chunk, p + 1 + chunk[p])
  }

  /** Where the parser is after `k` jumps. */
  function Chase(chunk: seq<byte>, p: nat, k: nat): Option<nat> {
    if k == 0 then Some(p)
    else match Chase(chunk, p, k - 1)
      case None => None
      case Some(q) => Jump(chunk, q)
  }

  lemma {:induction false} ChaseOn(chunk: seq<byte>, p: nat, j: nat, k: nat)
    requires Chase(chunk, p, j).Some?
    ensures Chase(chunk, p, j + k) == Chase(chunk, Chase(chunk, p, j).value, k)
  {
    if k > 0 {
      ChaseOn(chunk, p, j, k - 1);
    }
  }

  /** Jumps before one that happens happen. */
  lemma {:induction false} ChaseBefore(chunk: seq<byte>, p: nat, j: nat, k: nat)
    requires j <= k && Chase(chunk, p, k).Some?
    ensures Chase(chunk, p, j).Some?
  {
    if j < k {
      ChaseBefore(chunk, p, j, k - 1);
    }
  }

  lemma {:induction false} RoundForEver(chunk: seq<byte>, p: nat, c: nat, k: nat)
    requires c > 0 && Chase(chunk, p, c) == Some(p)
    ensures Chase(chunk, p, k).Some?
  {
    if k < c {
      ChaseBefore(chunk, p, k, c);
    } else {
      RoundForEver(chunk, p, c, k - c);
      ChaseOn(chunk, p, c, k - c);
    }
  }

  /** The parser is caught in a loop as soon as its run is. */
  lemma {:induction false} LoopsAtRun(chunk: seq<byte>, p: nat, seen: set<nat>)
    ensures Parse(chunk, p, seen) == Loops <==>
            match Jump(chunk, p)
            case None => false
            case Some(n) => n in seen || (Fewer(seen, n); Parse(chunk, n, seen + {n}) == Loops)
    decreases |chunk| - p
  {
    hide Offsets;
    if p < |chunk| && chunk[p] != 0 && !IsPointer(chunk[p]) {
      LoopsAtRun(chunk, p + 1 + chunk[p], seen);
    }
  }

  ghost predicate Reaches(chunk: seq<byte>, n: nat, p: nat) { exists k: nat :: Chase(chunk, n, k) == Some(p) }

  lemma {:induction false} LoopsIsEndless(chunk: seq<byte>, p: nat, seen: set<nat>, k: nat)
    requires Parse(chunk, p, seen) == Loops && forall n :: n in seen ==> Reaches(chunk, n, p)
    ensures Chase(chunk, p, k).Some?
    decreases |Offsets() - seen|
  {
    if k > 0 {
      LoopsAtRun(chunk, p, seen);
      var n := Jump(chunk, p).value;
      assert Chase(chunk, p, 0) == Some(p) && Chase(chunk, p, 1) == Some(n);
      ChaseOn(chunk, p, 1, k - 1);
      if n in seen {
        var c: nat :| Chase(chunk, n, c) == Some(p);
        assert Chase(chunk, n, c + 1) == Some(n);
        RoundForEver(chunk, n, c + 1, k - 1);
      } else {
        forall m | m in seen + {n} ensures Reaches(chunk, m, n) {
          if m == n {
            assert Chase(chunk, n, 0) == Some(n);
          } else {
            var c: nat :| Chase(chunk, m, c) == Some(p);
            assert Chase(chunk, m, c + 1) == Some(n);
          }
        }
        Fewer(seen, n);
        LoopsIsEndless(chunk, n, seen + {n}, k - 1);
      }
    }
  }

  lemma {:induction false} EndsOtherwise(chunk: seq<byte>, p: nat, seen: set<nat>) returns (k: nat)
    requires Parse(chunk, p, seen) != Loops
    ensures k <= |Offsets() - seen| + 1 && Chase(chunk, p, k) == None
    decreases |Offsets() - seen|
  {
    LoopsAtRun(chunk, p, seen);
    assert Chase(chunk, p, 0) == Some(p);
    if Jump(chunk, p) == None {
      k := 1;
    } else {
      var n := Jump(chunk, p).value;
      assert Chase(chunk, p, 1) == Some(n);
      Fewer(seen, n);
      k := EndsOtherwise(chunk, n, seen + {n});
      ChaseOn(chunk, p, 1, k);
      k := k + 1;
    }
  }

  lemma {:induction false} OffsetsBelow(m: nat)
    ensures |set n: nat | n < m && IsOffset(n)| <= m
  {
    if m > 0 {
      var below, upTo := set n: nat | n < m - 1 && IsOffset(n), set n: nat | n < m && IsOffset(n);
      OffsetsBelow(m - 1);
      assert upTo == if IsOffset(m - 1) then below + {m - 1} else below;
    }
  }

  /** The parser goes on for ever exactly when its jumps do; and they do as soon as there are more of
      them than offsets to jump to, which a caller can count before the call. */
  lemma StopsUnlessEndless(chunk: seq<byte>, p: nat)
    ensures Parse(chunk, p, {}) == Loops <==> Chase(chunk, p, 257).Some?
    ensures Parse(chunk, p, {}) == Loops <==> forall k: nat :: Chase(chunk, p, k).Some?
  {
    if Parse(chunk, p, {}) == Loops {
      forall k: nat ensures Chase(chunk, p, k).Some? {
        LoopsIsEndless(chunk, p, {}, k);
      }
    } else {
      var k := EndsOtherwise(chunk, p, {});
      OffsetsBelow(0x100);
      assert Offsets() - {} == Offsets();
      if Chase(chunk, p, 257).Some? {
        ChaseBefore(chunk, p, k, 257);
      }
    }
  }

  /** A message on which it goes on for ever: a pointer to itself. */
  lemma SelfPointerLoops(chunk: seq<byte>)
    requires chunk == [0xC0, 0]
    ensures Parse(chunk, 0, {}) == Loops
  {
    Fewer({}, 0);
    assert Parse(chunk, 0, {} + {0}) == Loops;
  }

  /** A message on which it writes one dot too many: a label before a pointer to an empty name. */
  lemma ExtraDot(chunk: seq<byte>)
    requires chunk == [0, 1, 97, 0xC0, 0]
    ensures NameAt(chunk, 1, 1) == Some([[97]]) && Parse(chunk, 1, {}) == Text([97, DOT])
  {
    assert chunk[2..3] == [97];
    assert NameAt(chunk, 0, 0) == Some([]) && NameAt(chunk, 1, 3) == Some([]);
    Fewer({}, 0);
    assert Parse(chunk, 0, {} + {0}) == Text([]);
    assert Parse(chunk, 3, {}) == Text([]);
    assert Parse(chunk, 1, {}) == Text(chunk[2..3] + [DOT] + []);
    assert chunk[2..3] + [DOT] + [] == [97, DOT];
    assert NameAt(chunk, 1, 1) == Some([chunk[2..3]] + []);
    assert [chunk[2..3]] + [] == [[97]];
  }
}
