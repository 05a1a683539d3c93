/** Key-value entries in key order, and the finite map they stand for.  Both engines refine it. */
module Dict {
  import opened StrOrder

  datatype Entry = Entry(key: string, value: string)

  ghost predicate Sorted(es: seq<Entry>) {
    forall i, j :: 0 <= i < j < |es| ==> Less(es[i].key, es[j].key)
  }

  ghost predicate Below(es: seq<Entry>, key: string) {
    forall i :: 0 <= i < |es| ==> Less(es[i].key, key)
  }

  ghost predicate Above(key: string, es: seq<Entry>) {
    forall i :: 0 <= i < |es| ==> Less(key, es[i].key)
  }

  ghost function AsMap(es: seq<Entry>): map<string, string> {
    if es == [] then map[] else AsMap(es[..|es| - 1])[es[|es| - 1].key := es[|es| - 1].value]
  }

  ghost predicate HasKey(es: seq<Entry>, key: string) {
    exists i :: 0 <= i < |es| && es[i].key == key
  }

  lemma {:induction false} AsMapKeys(es: seq<Entry>, key: string)
    ensures key in AsMap(es) <==> HasKey(es, key)
  {
    if es != [] {
      AsMapKeys(es[..|es| - 1], key);
      if HasKey(es, key) && es[|es| - 1].key != key {
        var i :| 0 <= i < |es| && es[i].key == key;
        assert es[..|es| - 1][i].key == key;
      }
    }
  }

  lemma {:induction false} AsMapAppend(a: seq<Entry>, b: seq<Entry>)
    ensures AsMap(a + b) == AsMap(a) + AsMap(b)
  {
    if b == [] {
      assert a + b == a;
    } else {
      AsMapAppend(a, b[..|b| - 1]);
      assert (a + b)[..|a + b| - 1] == a + b[..|b| - 1];
    }
  }

  lemma AsMapOne(e: Entry)
    ensures AsMap([e]) == map[e.key := e.value]
  {
    assert [e][..0] == [];
  }

  lemma NotBelow(es: seq<Entry>, key: string)
    requires Below(es, key) || Above(key, es)
    ensures key !in AsMap(es)
  {
    AsMapKeys(es, key);
    if HasKey(es, key) {
      var i :| 0 <= i < |es| && es[i].key == key;
      LessTotal(key, key);
    }
  }

  /** An entry between those below and those above it. */
  lemma Between(a: seq<Entry>, e: Entry, b: seq<Entry>)
    requires Below(a, e.key) && Above(e.key, b)
    ensures AsMap(a + [e] + b) == AsMap(a + b)[e.key := e.value]
    ensures AsMap(a + b) == AsMap(a + [e] + b) - {e.key}
    ensures e.key !in AsMap(a + b)
  {
    hide AsMap, Below, Above;
    AsMapAppend(a + [e], b);
    AsMapAppend(a, [e]);
    AsMapAppend(a, b);
    AsMapOne(e);
    NotBelow(a, e.key);
    NotBelow(b, e.key);
  }

  /** A sorted sequence splits around each of its entries. */
  lemma SortedSplit(a: seq<Entry>, e: Entry, b: seq<Entry>)
    ensures Sorted(a + [e] + b) <==> Sorted(a) && Sorted(b) && Below(a, e.key) && Above(e.key, b)
    ensures Sorted(a + [e] + b) ==> Sorted(a + b)
  {
    var es := a + [e] + b;
    if Sorted(es) {
      forall i | 0 <= i < |a| ensures Less(a[i].key, e.key) {
        assert es[i] == a[i] && es[|a|] == e;
      }
      forall i | 0 <= i < |b| ensures Less(e.key, b[i].key) {
        assert es[|a| + 1 + i] == b[i] && es[|a|] == e;
      }
      forall i, j | 0 <= i < j < |a| ensures Less(a[i].key, a[j].key) {
        assert es[i] == a[i] && es[j] == a[j];
      }
      forall i, j | 0 <= i < j < |b| ensures Less(b[i].key, b[j].key) {
        assert es[|a| + 1 + i] == b[i] && es[|a| + 1 + j] == b[j];
      }
    }
    if Sorted(a) && Sorted(b) && Below(a, e.key) && Above(e.key, b) {
      forall i, j | 0 <= i < j < |es| ensures Less(es[i].key, es[j].key) {
        if i < |a| && j > |a| {
          LessTrans(a[i].key, e.key, b[j - |a| - 1].key);
        }
      }
      forall i, j | 0 <= i < j < |a + b| ensures Less((a + b)[i].key, (a + b)[j].key) {
        if i < |a| && j >= |a| {
          LessTrans(a[i].key, e.key, b[j - |a|].key);
        }
      }
    }
  }

  /** In a sorted sequence the entry at a key is the map's value there. */
  lemma Found(a: seq<Entry>, e: Entry, b: seq<Entry>)
    requires Sorted(a + [e] + b)
    ensures e.key in AsMap(a + [e] + b) && AsMap(a + [e] + b)[e.key] == e.value
  {
    SortedSplit(a, e, b);
    Between(a, e, b);
  }

  /** A key that falls between two parts of a sorted sequence is not in the map. */
  lemma Missing(a: seq<Entry>, key: string, b: seq<Entry>)
    requires Below(a, key) && Above(key, b)
    ensures key !in AsMap(a + b)
  {
    AsMapAppend(a, b);
    NotBelow(a, key);
    NotBelow(b, key);
  }

  /** Taking out the entry in the middle. */
  lemma RemovedEntries(a: seq<Entry>, e: Entry, b: seq<Entry>)
    requires Sorted(a + [e] + b)
    ensures Sorted(a + b) && AsMap(a + b) == AsMap(a + [e] + b) - {e.key}
  {
    SortedSplit(a, e, b);
    Between(a, e, b);
  }
}
