/**
 Workers that each write their own keys of a shared store. However the workers are interleaved, the store ends
 up as if they had run one after the other.
 */
module Interleaving {
  datatype Op<K, V> = Op(key: K, value: V)

  function Play<K, V>(m: map<K, V>, ops: seq<Op<K, V>>): map<K, V>
    decreases |ops|
  {
    if ops == [] then m else Play(m[ops[0].key := ops[0].value], ops[1..])
  }

  /** The schedule names the worker that writes next, until every worker has finished. */
  predicate Schedule<K, V>(ws: seq<seq<Op<K, V>>>, sched: seq<nat>)
    decreases |sched|
  {
    if sched == [] then forall w :: 0 <= w < |ws| ==> ws[w] == []
    else
      && sched[0] < |ws| && ws[sched[0]] != []
      && Schedule(ws[sched[0] := ws[sched[0]][1..]], sched[1..])
  }

  function Trace<K, V>(ws: seq<seq<Op<K, V>>>, sched: seq<nat>): seq<Op<K, V>>
    requires Schedule(ws, sched)
    decreases |sched|
  {
    if sched == [] then []
    else [ws[sched[0]][0]] + Trace(ws[sched[0] := ws[sched[0]][1..]], sched[1..])
  }

  function Concat<K, V>(ws: seq<seq<Op<K, V>>>): seq<Op<K, V>> {
    if ws == [] then [] else ws[0] + Concat(ws[1..])
  }

  /** No key is written by two workers. */
  ghost predicate Disjoint<K, V>(ws: seq<seq<Op<K, V>>>) {
    forall a, b, x, y :: 0 <= a < b < |ws| && x in ws[a] && y in ws[b] ==> x.key != y.key
  }

  lemma {:induction false} PlayConcat<K, V>(m: map<K, V>, a: seq<Op<K, V>>, b: seq<Op<K, V>>)
    ensures Play(m, a + b) == Play(Play(m, a), b)
    decreases |a|
  {
    if a == [] {
      assert a + b == b;
    } else {
      assert (a + b)[1..] == a[1..] + b;
      PlayConcat(m[a[0].key := a[0].value], a[1..], b);
    }
  }

  /** A write can be moved in front of writes to other keys. */
  lemma {:induction false} MoveFront<K, V>(m: map<K, V>, a: seq<Op<K, V>>, op: Op<K, V>)
    requires forall x :: x in a ==> x.key != op.key
    ensures Play(m, a + [op]) == Play(m[op.key := op.value], a)
    decreases |a|
  {
    if a == [] {
      assert a + [op] == [op] && [op][1..] == [];
    } else {
      var m1 := m[a[0].key := a[0].value];
      assert (a + [op])[1..] == a[1..] + [op];
      MoveFront(m1, a[1..], op);
      assert m1[op.key := op.value] == m[op.key := op.value][a[0].key := a[0].value];
    }
  }

  lemma {:induction false} ConcatSplit<K, V>(ws: seq<seq<Op<K, V>>>, w: nat)
    requires w < |ws|
    ensures Concat(ws) == Concat(ws[..w]) + ws[w] + Concat(ws[w + 1..])
  {
    if w == 0 {
      assert ws[..0] == [];
    } else {
      ConcatSplit(ws[1..], w - 1);
      assert ws[1..][..w - 1] == ws[..w][1..] && ws[1..][w..] == ws[w + 1..];
    }
  }

  lemma {:induction false} InConcat<K, V>(ws: seq<seq<Op<K, V>>>, x: Op<K, V>)
    ensures x in Concat(ws) <==> exists w :: 0 <= w < |ws| && x in ws[w]
  {
    if ws != [] {
      InConcat(ws[1..], x);
      assert forall w :: 0 <= w < |ws[1..]| ==> ws[1..][w] == ws[w + 1];
      if x in ws[0] { assert 0 <= 0 < |ws| && x in ws[0]; }
    }
  }

  /** The first write of worker w may come first of all. */
  lemma HeadFirst<K, V>(m: map<K, V>, ws: seq<seq<Op<K, V>>>, w: nat)
    requires Disjoint(ws) && w < |ws| && ws[w] != []
    ensures var op := ws[w][0];
            Play(m, Concat(ws)) == Play(m[op.key := op.value], Concat(ws[w := ws[w][1..]]))
  {
    var op := ws[w][0];
    var ws' := ws[w := ws[w][1..]];
    var front, back := Concat(ws[..w]), Concat(ws[w + 1..]);
    ConcatSplit(ws, w);
    ConcatSplit(ws', w);
    assert ws'[..w] == ws[..w] && ws'[w + 1..] == ws[w + 1..];
    assert Concat(ws) == (front + [op]) + (ws[w][1..] + back);
    assert Concat(ws') == front + (ws[w][1..] + back);
    forall x | x in front ensures x.key != op.key {
      InConcat(ws[..w], x);
      var a :| 0 <= a < |ws[..w]| && x in ws[..w][a];
      assert x in ws[a] && op in ws[w];
    }
    PlayConcat(m, front + [op], ws[w][1..] + back);
    MoveFront(m, front, op);
    PlayConcat(m[op.key := op.value], front, ws[w][1..] + back);
  }

  lemma StillDisjoint<K, V>(ws: seq<seq<Op<K, V>>>, w: nat)
    requires Disjoint(ws) && w < |ws| && ws[w] != []
    ensures Disjoint(ws[w := ws[w][1..]])
  {
    var ws' := ws[w := ws[w][1..]];
    forall a, b, x: Op<K, V>, y: Op<K, V> | 0 <= a < b < |ws'| && x in ws'[a] && y in ws'[b] ensures x.key != y.key {
      assert x in ws[a] && y in ws[b];
    }
  }

  /** Every interleaving of workers with disjoint keys has the effect of running them in turn. */
  lemma {:induction false} AnyInterleaving<K, V>(m: map<K, V>, ws: seq<seq<Op<K, V>>>, sched: seq<nat>)
    requires Disjoint(ws) && Schedule(ws, sched)
    ensures Play(m, Trace(ws, sched)) == Play(m, Concat(ws))
    decreases |sched|
  {
    if sched == [] {
      AllEmpty(ws);
    } else {
      var w := sched[0];
      var op, ws' := ws[w][0], ws[w := ws[w][1..]];
      StillDisjoint(ws, w);
      AnyInterleaving(m[op.key := op.value], ws', sched[1..]);
      HeadFirst(m, ws, w);
      assert Trace(ws, sched) == [op] + Trace(ws', sched[1..]);
      assert ([op] + Trace(ws', sched[1..]))[1..] == Trace(ws', sched[1..]);
    }
  }

  lemma {:induction false} AllEmpty<K, V>(ws: seq<seq<Op<K, V>>>)
    requires forall w :: 0 <= w < |ws| ==> ws[w] == []
    ensures Concat(ws) == []
  {
    if ws != [] {
      assert forall w :: 0 <= w < |ws[1..]| ==> ws[1..][w] == ws[w + 1];
      AllEmpty(ws[1..]);
    }
  }

  /** What a key holds in the end: the value written to it, if all writes to it agree, else what it held. */
  lemma {:induction false} PlayAt<K, V>(m: map<K, V>, ops: seq<Op<K, V>>, key: K)
    requires forall x, y :: x in ops && y in ops && x.key == y.key == key ==> x.value == y.value
    ensures forall x :: x in ops && x.key == key ==> key in Play(m, ops) && Play(m, ops)[key] == x.value
    ensures (forall x :: x in ops ==> x.key != key) ==>
              (key in Play(m, ops) <==> key in m) && (key in m ==> Play(m, ops)[key] == m[key])
    decreases |ops|
  {
    if ops != [] {
      var m1, rest := m[ops[0].key := ops[0].value], ops[1..];
      assert forall x :: x in rest ==> x in ops;
      assert forall x :: x in ops ==> x == ops[0] || x in rest;
      PlayAt(m1, rest, key);
      if ops[0].key == key {
        if x :| x in rest && x.key == key {
          assert ops[0] in ops;
        }
      }
    }
  }
}
