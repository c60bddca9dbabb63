/**
 Writing a run of entries into a key-to-id index, one after the other. Each
 entry carries a set of keys and one id and maps every one of its keys to
 that id, overwriting what was there. This is the shape of the category
 index build, with the keys each category writes already worked out.
 */
module IndexFold {

  type Index = map<string, nat>

  /** One entry's effect: every key in `keys` is set to `id`. */
  datatype Write = Write(keys: set<string>, id: nat)

  function Apply(index: Index, w: Write): (r: Index)
    ensures r.Keys == index.Keys + w.keys
    ensures forall k :: k in w.keys ==> r[k] == w.id
    ensures forall k :: k in index && k !in w.keys ==> r[k] == index[k]
  {
    map k | k in index.Keys + w.keys :: if k in w.keys then w.id else index[k]
  }

  /** Setting four keys to one id, one after the other, is one write of all four. */
  lemma SetFour(index: Index, a: string, b: string, c: string, d: string, id: nat)
    ensures index[a := id][b := id][c := id][d := id] == Apply(index, Write({a, b, c, d}, id))
  {
  }

  /** The index after every write, in order. */
  function ApplyAll(index: Index, ws: seq<Write>): (r: Index)
    ensures index.Keys <= r.Keys
  {
    if |ws| == 0 then index else Apply(ApplyAll(index, ws[..|ws| - 1]), ws[|ws| - 1])
  }

  /** Extending a prefix of the writes by one applies that write on top. */
  lemma ApplyAllStep(index: Index, ws: seq<Write>, n: nat)
    requires n < |ws|
    ensures ApplyAll(index, ws[..n + 1]) == Apply(ApplyAll(index, ws[..n]), ws[n])
  {
    assert ws[..n + 1][..n] == ws[..n];
  }

  /** Applying `u + v` is applying `u`, then `v` on top. */
  lemma {:induction false} ApplyAllConcat(index: Index, u: seq<Write>, v: seq<Write>)
    ensures ApplyAll(index, u + v) == ApplyAll(ApplyAll(index, u), v)
    decreases |v|
  {
    if |v| == 0 {
      assert u + v == u;
    } else {
      var m := |v| - 1;
      assert (u + v)[..|u + v| - 1] == u + v[..m];
      assert (u + v)[|u + v| - 1] == v[m];
      ApplyAllConcat(index, u, v[..m]);
    }
  }

  /** A write with no keys changes nothing, wherever it stands. */
  lemma ApplyAllSkipEmpty(index: Index, u: seq<Write>, w: Write, v: seq<Write>)
    requires w.keys == {}
    ensures ApplyAll(index, u + [w] + v) == ApplyAll(index, u + v)
  {
    var x := ApplyAll(index, u);
    ApplyAllConcat(index, u + [w], v);
    ApplyAllConcat(index, u, [w]);
    ApplyAllConcat(index, u, v);
    assert [w][..0] == [];
    ApplyEmpty(x, w);
    assert ApplyAll(x, [w]) == Apply(x, w) == x;
  }

  /** A write with no keys leaves the index as it was. */
  lemma ApplyEmpty(index: Index, w: Write)
    requires w.keys == {}
    ensures Apply(index, w) == index
  {
    var r := Apply(index, w);
    assert r.Keys == index.Keys;
    assert forall k :: k in r ==> r[k] == index[k];
  }

  /** Some write of `ws` carries key `k`. */
  predicate WrittenIn(ws: seq<Write>, k: string)
  {
    exists i :: 0 <= i < |ws| && k in ws[i].keys
  }

  /** `v` is the id of some write of `ws` that carries key `k`. */
  predicate IdOfWriteIn(ws: seq<Write>, k: string, v: nat)
  {
    exists i :: 0 <= i < |ws| && k in ws[i].keys && ws[i].id == v
  }

  lemma WrittenInLast(ws: seq<Write>, k: string)
    requires |ws| > 0
    ensures WrittenIn(ws, k) <==> WrittenIn(ws[..|ws| - 1], k) || k in ws[|ws| - 1].keys
  {
    var pre := ws[..|ws| - 1];
    if WrittenIn(ws, k) && k !in ws[|ws| - 1].keys {
      var i :| 0 <= i < |ws| && k in ws[i].keys;
      assert pre[i] == ws[i];
    }
    if WrittenIn(pre, k) {
      var i :| 0 <= i < |pre| && k in pre[i].keys;
      assert ws[i] == pre[i];
    }
  }

  /** A key is in the result exactly when it was there before or some write carries it. */
  lemma {:induction false} ApplyAllKeys(index: Index, ws: seq<Write>, k: string)
    ensures k in ApplyAll(index, ws) <==> k in index || WrittenIn(ws, k)
    decreases |ws|
  {
    if |ws| > 0 {
      WrittenInLast(ws, k);
      ApplyAllKeys(index, ws[..|ws| - 1], k);
    }
  }

  /** A key maps to the id of the last write carrying it. */
  lemma {:induction false} ApplyAllLastWriter(index: Index, ws: seq<Write>, i: nat, k: string)
    requires i < |ws| && k in ws[i].keys
    requires forall j :: i < j < |ws| ==> k !in ws[j].keys
    ensures k in ApplyAll(index, ws) && ApplyAll(index, ws)[k] == ws[i].id
    decreases |ws|
  {
    if i < |ws| - 1 {
      var pre := ws[..|ws| - 1];
      assert forall j :: i < j < |pre| ==> pre[j] == ws[j];
      ApplyAllLastWriter(index, pre, i, k);
    }
  }

  /** A key no write carries keeps its value, or stays absent. */
  lemma {:induction false} ApplyAllUnwritten(index: Index, ws: seq<Write>, k: string)
    requires !WrittenIn(ws, k)
    ensures k in ApplyAll(index, ws) <==> k in index
    ensures k in index ==> ApplyAll(index, ws)[k] == index[k]
    decreases |ws|
  {
    if |ws| > 0 {
      WrittenInLast(ws, k);
      ApplyAllUnwritten(index, ws[..|ws| - 1], k);
    }
  }

  /** Every value is an untouched earlier value or the id of a write carrying the key. */
  lemma {:induction false} ApplyAllValues(index: Index, ws: seq<Write>, k: string)
    requires k in ApplyAll(index, ws)
    ensures || (!WrittenIn(ws, k) && k in index && ApplyAll(index, ws)[k] == index[k])
            || IdOfWriteIn(ws, k, ApplyAll(index, ws)[k])
    decreases |ws|
  {
    if |ws| > 0 {
      var pre := ws[..|ws| - 1];
      var r := ApplyAll(index, ws);
      WrittenInLast(ws, k);
      if k in ws[|ws| - 1].keys {
        assert IdOfWriteIn(ws, k, r[k]);
      } else {
        ApplyAllValues(index, pre, k);
        if IdOfWriteIn(pre, k, r[k]) {
          var i :| 0 <= i < |pre| && k in pre[i].keys && pre[i].id == r[k];
          assert ws[i] == pre[i];
        }
      }
    }
  }
}
