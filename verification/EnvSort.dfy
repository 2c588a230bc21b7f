/** The order in which documented variables are printed. */
module EnvSort {
  import opened Prelude

  datatype EnvVariable = EnvVariable(
    key: string, description: string, required: bool, defaultValue: Option<string>, tableIndex: Option<nat>)

  /** Variables by id, the id being the ASCII part of the key. */
  type Envs = map<string, EnvVariable>

  // ---- ordered keys ----

  predicate Less(a: string, b: string) {
    b != [] && (a == [] || a[0] < b[0] || (a[0] == b[0] && Less(a[1..], b[1..])))
  }

  /** An ordered map iterates keys made of a flag and an id: unflagged ids first, then by id. */
  predicate Before(flag: string -> bool, a: string, b: string) {
    (!flag(a) && flag(b)) || (flag(a) == flag(b) && Less(a, b))
  }

  lemma {:induction false} LessTotal(a: string, b: string)
    ensures a == b || Less(a, b) || Less(b, a)
    ensures !(Less(a, b) && Less(b, a)) && !(a == b && Less(a, b))
  {
    if a != [] && b != [] && a[0] == b[0] {
      LessTotal(a[1..], b[1..]);
      assert a == [a[0]] + a[1..] && b == [b[0]] + b[1..];
    }
  }

  lemma {:induction false} LessTransitive(a: string, b: string, c: string)
    requires Less(a, b) && Less(b, c)
    ensures Less(a, c)
  {
    if a != [] && a[0] == b[0] == c[0] {
      LessTransitive(a[1..], b[1..], c[1..]);
    }
  }

  /** The first difference of two ids is at `k`, and `a` has the smaller character there. */
  ghost predicate DiffersAt(a: string, b: string, k: int) {
    0 <= k < |a| && k < |b| && a[..k] == b[..k] && a[k] < b[k]
  }

  lemma DiffersAfter(c: char, a: string, b: string, k: int)
    ensures DiffersAt([c] + a, [c] + b, k + 1) <==> DiffersAt(a, b, k)
    ensures !DiffersAt([c] + a, [c] + b, 0)
  {
    var x, y := [c] + a, [c] + b;
    if 0 <= k < |a| && k < |b| {
      assert x[..k + 1] == [c] + a[..k] && y[..k + 1] == [c] + b[..k];
      assert ([c] + a[..k])[1..] == a[..k] && ([c] + b[..k])[1..] == b[..k];
    }
  }

  lemma DiffersElse(a: string, b: string, k: int)
    requires a != [] && b != [] && a[0] != b[0]
    ensures DiffersAt(a, b, k) <==> k == 0 && a[0] < b[0]
  {
    if 0 < k < |a| && k < |b| {
      assert a[..k][0] == a[0] && b[..k][0] == b[0];
    }
  }

  /** The order of ids is that of a dictionary: a proper prefix comes first, else the first difference decides. */
  lemma {:induction false} LessIff(a: string, b: string)
    ensures Less(a, b) <==> a < b || exists k :: DiffersAt(a, b, k)
  {
    if a != [] && b != [] {
      if a[0] == b[0] {
        LessIff(a[1..], b[1..]);
        assert a == [a[0]] + a[1..] && b == [a[0]] + b[1..];
        if k :| DiffersAt(a, b, k) {
          DiffersAfter(a[0], a[1..], b[1..], k - 1);
        }
        if k :| DiffersAt(a[1..], b[1..], k) {
          DiffersAfter(a[0], a[1..], b[1..], k);
        }
        assert a < b <==> a[1..] < b[1..];
      } else {
        forall k { DiffersElse(a, b, k); }
        assert DiffersAt(a, b, 0) <==> a[0] < b[0];
      }
    }
  }

  lemma BeforeTotal(flag: string -> bool, a: string, b: string)
    ensures a == b || Before(flag, a, b) || Before(flag, b, a)
    ensures !(Before(flag, a, b) && Before(flag, b, a))
  {
    LessTotal(a, b);
  }

  lemma BeforeTransitive(flag: string -> bool, a: string, b: string, c: string)
    requires Before(flag, a, b) && Before(flag, b, c)
    ensures Before(flag, a, c)
  {
    if flag(a) == flag(b) == flag(c) {
      LessTransitive(a, b, c);
    }
  }

  predicate IsFirst(flag: string -> bool, k: string, ids: set<string>) {
    k in ids && forall j :: j in ids && j != k ==> Before(flag, k, j)
  }

  lemma {:induction false} FirstExists(flag: string -> bool, ids: set<string>)
    requires ids != {}
    ensures exists k :: IsFirst(flag, k, ids)
  {
    var k :| k in ids;
    var rest := ids - {k};
    if rest == {} {
      assert ids == {k};
      assert IsFirst(flag, k, ids);
    } else {
      FirstExists(flag, rest);
      var f :| IsFirst(flag, f, rest);
      BeforeTotal(flag, k, f);
      if Before(flag, k, f) {
        forall j | j in ids && j != k ensures Before(flag, k, j) {
          if j != f {
            BeforeTransitive(flag, k, f, j);
          }
        }
        assert IsFirst(flag, k, ids);
      } else {
        assert IsFirst(flag, f, ids);
      }
    }
  }

  function FirstId(flag: string -> bool, ids: set<string>): (k: string)
    requires ids != {}
    ensures IsFirst(flag, k, ids)
  {
    FirstExists(flag, ids);
    assert forall a, b :: IsFirst(flag, a, ids) && IsFirst(flag, b, ids) ==> a == b by {
      forall a, b | IsFirst(flag, a, ids) && IsFirst(flag, b, ids) ensures a == b {
        BeforeTotal(flag, a, b);
      }
    }
    var k :| k in ids && IsFirst(flag, k, ids);
    k
  }

  /** The ids in iteration order. */
  function InOrder(flag: string -> bool, ids: set<string>): seq<string> {
    if ids == {} then []
    else
      var k := FirstId(flag, ids);
      [k] + InOrder(flag, ids - {k})
  }

  lemma {:induction false} InOrderOk(flag: string -> bool, ids: set<string>)
    ensures var s := InOrder(flag, ids);
            && |s| == |ids|
            && (forall id :: id in s <==> id in ids)
            && (forall i, j :: 0 <= i < j < |s| ==> Before(flag, s[i], s[j]))
  {
    if ids != {} {
      var s := InOrder(flag, ids);
      InOrderOk(flag, ids - {s[0]});
      assert s[1..] == InOrder(flag, ids - {s[0]});
      forall id ensures id in s <==> id in ids {
        assert id in s <==> id == s[0] || id in s[1..];
      }
      forall i, j | 0 <= i < j < |s| ensures Before(flag, s[i], s[j]) {
        assert s[j] == s[1..][j - 1] && s[j] in s[1..];
      }
    }
  }

  // ---- filling the slots ----

  type Entries = seq<(nat, string)>

  ghost predicate Ascends(e: Entries) {
    forall i, j :: 0 <= i < j < |e| ==> e[i].0 < e[j].0
  }

  /** Position by position: the entry with that index, else the next free id, else the next entry. */
  function Fill(indexed: Entries, free: seq<string>, pos: nat): seq<string>
    decreases |indexed| + |free|
  {
    if indexed != [] && (indexed[0].0 == pos || free == []) then
      [indexed[0].1] + Fill(indexed[1..], free, pos + 1)
    else if free != [] then [free[0]] + Fill(indexed, free[1..], pos + 1)
    else []
  }

  lemma {:induction false} FillLength(indexed: Entries, free: seq<string>, pos: nat)
    ensures |Fill(indexed, free, pos)| == |indexed| + |free|
    decreases |indexed| + |free|
  {
    if indexed != [] && (indexed[0].0 == pos || free == []) {
      FillLength(indexed[1..], free, pos + 1);
    } else if free != [] {
      FillLength(indexed, free[1..], pos + 1);
    }
  }

  lemma FillStep(indexed: Entries, free: seq<string>, pos: nat)
    requires indexed != []
    ensures Fill(indexed, free, pos)
            == if indexed[0].0 == pos || free == [] then [indexed[0].1] + Fill(indexed[1..], free, pos + 1)
               else [free[0]] + Fill(indexed, free[1..], pos + 1)
  {
  }

  ghost predicate StandsAt(s: seq<string>, slot: int, id: string) {
    0 <= slot < |s| && s[slot] == id
  }

  lemma StandsAfter(first: string, rest: seq<string>, slot: int, id: string)
    requires StandsAt(rest, slot - 1, id)
    ensures StandsAt([first] + rest, slot, id)
  {
  }

  /** Ascending, step by step. */
  predicate Rises(e: Entries) {
    |e| > 1 ==> e[0].0 < e[1].0 && Rises(e[1..])
  }

  lemma {:induction false} AscendsRises(e: Entries)
    requires Ascends(e)
    ensures Rises(e)
  {
    if |e| > 1 {
      assert Ascends(e[1..]);
      AscendsRises(e[1..]);
    }
  }

  /** No remaining index is ever below the position reached, which puts each indexed entry at the lesser
      of its index and the number of entries that come before it. */
  lemma {:induction false} FillSlot(indexed: Entries, free: seq<string>, pos: nat, j: nat)
    requires Rises(indexed) && j < |indexed| && pos <= indexed[0].0
    ensures StandsAt(Fill(indexed, free, pos), Min(indexed[j].0, pos + j + |free|) - pos, indexed[j].1)
    decreases |indexed| + |free|
  {
    var slot := Min(indexed[j].0, pos + j + |free|) - pos;
    FillStep(indexed, free, pos);
    if indexed[0].0 == pos || free == [] {
      if j > 0 {
        FillSlot(indexed[1..], free, pos + 1, j - 1);
        StandsAfter(indexed[0].1, Fill(indexed[1..], free, pos + 1), slot, indexed[j].1);
      }
    } else {
      FillSlot(indexed, free[1..], pos + 1, j);
      StandsAfter(free[0], Fill(indexed, free[1..], pos + 1), slot, indexed[j].1);
    }
  }

  /** Every free id is emitted. */
  lemma {:induction false} FillEmits(indexed: Entries, free: seq<string>, pos: nat, r: nat) returns (i: nat)
    requires r < |free|
    ensures i < |Fill(indexed, free, pos)| && Fill(indexed, free, pos)[i] == free[r]
    decreases |indexed| + |free|
  {
    if indexed != [] && indexed[0].0 == pos {
      i := FillEmits(indexed[1..], free, pos + 1, r);
      i := i + 1;
    } else if r > 0 {
      i := FillEmits(indexed, free[1..], pos + 1, r - 1);
      i := i + 1;
    } else {
      i := 0;
    }
  }

  /** Free ids are emitted in the order they have. */
  lemma {:induction false} FillOrder(indexed: Entries, free: seq<string>, pos: nat, r: nat, q: nat)
    returns (i: nat, j: nat)
    requires r < q < |free|
    ensures i < j < |Fill(indexed, free, pos)|
    ensures Fill(indexed, free, pos)[i] == free[r] && Fill(indexed, free, pos)[j] == free[q]
    decreases |indexed| + |free|
  {
    if indexed != [] && indexed[0].0 == pos {
      i, j := FillOrder(indexed[1..], free, pos + 1, r, q);
      i, j := i + 1, j + 1;
    } else if r > 0 {
      i, j := FillOrder(indexed, free[1..], pos + 1, r - 1, q - 1);
      i, j := i + 1, j + 1;
    } else {
      j := FillEmits(indexed, free[1..], pos + 1, q - 1);
      i, j := 0, j + 1;
    }
  }

  /** Nothing is emitted that was not given. */
  lemma {:induction false} FillMembers(indexed: Entries, free: seq<string>, pos: nat, i: nat)
    requires i < |Fill(indexed, free, pos)|
    ensures var id := Fill(indexed, free, pos)[i]; id in free || exists e :: e in indexed && e.1 == id
    decreases |indexed| + |free|
  {
    if indexed != [] && (indexed[0].0 == pos || free == []) {
      if i == 0 {
        assert indexed[0] in indexed;
      } else {
        FillMembers(indexed[1..], free, pos + 1, i - 1);
      }
    } else if i > 0 {
      FillMembers(indexed, free[1..], pos + 1, i - 1);
    }
  }

  // ---- an ordered map from indices ----

  ghost function Smaller(keys: set<nat>, k: nat): set<nat> {
    set j | j in keys && j < k
  }

  lemma {:induction false} LeastExists(keys: set<nat>)
    requires keys != {}
    ensures exists k :: k in keys && Smaller(keys, k) == {}
  {
    var k :| k in keys;
    if Smaller(keys, k) != {} {
      LeastExists(Smaller(keys, k));
      var l :| l in Smaller(keys, k) && Smaller(Smaller(keys, k), l) == {};
      assert Smaller(keys, l) == Smaller(Smaller(keys, k), l);
    }
  }

  function LeastIndex(m: map<nat, string>): (k: nat)
    requires m != map[]
    ensures k in m && forall j :: j in m ==> k <= j
  {
    assert exists k :: k in m && forall j :: j in m ==> k <= j by {
      LeastExists(m.Keys);
      var k :| k in m.Keys && Smaller(m.Keys, k) == {};
      assert forall j :: j in m && j < k ==> j in Smaller(m.Keys, k);
    }
    var k :| k in m && forall j :: j in m ==> k <= j;
    k
  }

  lemma Removed(m: map<nat, string>, k: nat)
    requires k in m
    ensures |m - {k}| == |m| - 1 && (m - {k}).Keys == m.Keys - {k}
  {
    assert (m - {k}).Keys == m.Keys - {k};
    assert |m - {k}| == |(m - {k}).Keys| && |m| == |m.Keys|;
  }

  /** The entries by ascending index. */
  function Ascending(m: map<nat, string>): (e: Entries)
    decreases |m|
  {
    if m == map[] then []
    else
      var k := LeastIndex(m);
      Removed(m, k);
      [(k, m[k])] + Ascending(m - {k})
  }

  lemma {:induction false} AscendingOk(m: map<nat, string>)
    ensures var e := Ascending(m);
            && |e| == |m| && Ascends(e)
            && (forall i :: 0 <= i < |e| ==> e[i].0 in m && e[i].1 == m[e[i].0])
    decreases |m|
  {
    if m != map[] {
      var k := LeastIndex(m);
      Removed(m, k);
      AscendingOk(m - {k});
    }
  }

  /** An index has as many entries before it as there are smaller indices. */
  lemma {:induction false} AscendingRank(m: map<nat, string>, k: nat)
    requires k in m
    ensures var r := |Smaller(m.Keys, k)|; r < |Ascending(m)| && Ascending(m)[r] == (k, m[k])
    decreases |m|
  {
    var l := LeastIndex(m);
    if k == l {
      assert Smaller(m.Keys, k) == {};
    } else {
      Removed(m, l);
      AscendingRank(m - {l}, k);
      assert Smaller(m.Keys, k) == Smaller((m - {l}).Keys, k) + {l};
    }
  }

  lemma SlotOf(m: map<nat, string>, free: seq<string>, k: nat)
    requires k in m
    ensures var slot := Min(k, |Smaller(m.Keys, k)| + |free|);
            0 <= slot < |Fill(Ascending(m), free, 0)| && Fill(Ascending(m), free, 0)[slot] == m[k]
  {
    AscendingOk(m);
    AscendsRises(Ascending(m));
    AscendingRank(m, k);
    FillSlot(Ascending(m), free, 0, |Smaller(m.Keys, k)|);
  }

  /** Taking the least index out of the map is taking the first entry. */
  lemma FillTake(m: map<nat, string>, free: seq<string>, pos: nat, k: nat)
    requires k in m && (forall j :: j in m ==> k <= j) && (k == pos || free == [])
    ensures Fill(Ascending(m), free, pos) == [m[k]] + Fill(Ascending(m - {k}), free, pos + 1)
  {
    assert LeastIndex(m) == k;
    assert Ascending(m)[1..] == Ascending(m - {k});
  }

  lemma FillSkip(m: map<nat, string>, free: seq<string>, pos: nat)
    requires pos !in m && free != []
    ensures Fill(Ascending(m), free, pos) == [free[0]] + Fill(Ascending(m), free[1..], pos + 1)
  {
    AscendingOk(m);
  }

  // ---- variables ----

  /** The ids by index, collected in the order of `ids`; a later id takes the place of an earlier one. */
  function ByIndex(vars: Envs, ids: seq<string>): map<nat, string> {
    if ids == [] then map[]
    else
      var n := |ids| - 1;
      var earlier := ByIndex(vars, ids[..n]);
      if ids[n] in vars && vars[ids[n]].tableIndex.Some? then earlier[vars[ids[n]].tableIndex.value := ids[n]]
      else earlier
  }

  function Indexed(vars: Envs): map<nat, string> {
    ByIndex(vars, InOrder(_ => false, vars.Keys))
  }

  function Unindexed(vars: Envs): set<string> {
    set id | id in vars && vars[id].tableIndex.None?
  }

  function Optional(vars: Envs): string -> bool {
    id => id in vars && !vars[id].required
  }

  function Free(vars: Envs): seq<string> {
    InOrder(Optional(vars), Unindexed(vars))
  }

  /** Ids in printed order. */
  function SortedIds(vars: Envs): seq<string> {
    Fill(Ascending(Indexed(vars)), Free(vars), 0)
  }

  ghost predicate DistinctIndices(vars: Envs) {
    forall a, b :: a in vars && b in vars && vars[a].tableIndex.Some? && vars[a].tableIndex == vars[b].tableIndex
                   ==> a == b
  }

  /** The indices in use. */
  ghost function Indices(vars: Envs): set<nat> {
    set id | id in vars && vars[id].tableIndex.Some? :: vars[id].tableIndex.value
  }

  ghost predicate Holds(vars: Envs, k: nat, id: string) {
    id in vars && vars[id].tableIndex == Some(k)
  }

  lemma {:induction false} ByIndexOk(vars: Envs, ids: seq<string>)
    ensures forall k :: k in ByIndex(vars, ids) ==> Holds(vars, k, ByIndex(vars, ids)[k])
    ensures forall id :: id in ids && id in vars && vars[id].tableIndex.Some?
                         ==> vars[id].tableIndex.value in ByIndex(vars, ids)
  {
    if ids != [] {
      var n := |ids| - 1;
      ByIndexOk(vars, ids[..n]);
      assert ids == ids[..n] + [ids[n]];
    }
  }

  /** The last id with an index is the one kept for it. */
  lemma {:induction false} ByIndexLast(vars: Envs, ids: seq<string>, r: nat, k: nat)
    requires r < |ids| && Holds(vars, k, ids[r]) && forall j :: r < j < |ids| ==> !Holds(vars, k, ids[j])
    ensures k in ByIndex(vars, ids) && ByIndex(vars, ids)[k] == ids[r]
  {
    var n := |ids| - 1;
    if r < n {
      assert !Holds(vars, k, ids[n]);
      ByIndexLast(vars, ids[..n], r, k);
    }
  }

  /** `id` is the last of the ids with its index. */
  ghost predicate LastOfIndex(vars: Envs, id: string) {
    && id in vars && vars[id].tableIndex.Some?
    && forall b :: b in vars && b != id && vars[b].tableIndex == vars[id].tableIndex ==> Less(b, id)
  }

  lemma IndexedLast(vars: Envs, id: string)
    requires LastOfIndex(vars, id)
    ensures var k := vars[id].tableIndex.value; k in Indexed(vars) && Indexed(vars)[k] == id
  {
    var k := vars[id].tableIndex.value;
    var ids := InOrder(_ => false, vars.Keys);
    InOrderOk(_ => false, vars.Keys);
    assert id in ids;
    var r :| 0 <= r < |ids| && ids[r] == id;
    forall j | r < j < |ids| ensures !Holds(vars, k, ids[j]) {
      LessTotal(id, ids[j]);
    }
    ByIndexLast(vars, ids, r, k);
  }

  lemma IndexedOk(vars: Envs)
    ensures Indexed(vars).Keys == Indices(vars)
    ensures forall k :: k in Indexed(vars) ==> Holds(vars, k, Indexed(vars)[k])
  {
    InOrderOk(_ => false, vars.Keys);
    ByIndexOk(vars, InOrder(_ => false, vars.Keys));
    forall k | k in Indexed(vars) ensures k in Indices(vars) {
      assert Holds(vars, k, Indexed(vars)[k]);
    }
  }

  lemma FreeOk(vars: Envs)
    ensures |Free(vars)| == |Unindexed(vars)|
    ensures forall id :: id in Free(vars) <==> id in Unindexed(vars)
  {
    InOrderOk(Optional(vars), Unindexed(vars));
  }

  lemma FreeOrder(vars: Envs, a: string, b: string) returns (r: nat, q: nat)
    requires a in Unindexed(vars) && b in Unindexed(vars) && Before(Optional(vars), a, b)
    ensures r < q < |Free(vars)| && Free(vars)[r] == a && Free(vars)[q] == b
  {
    var free := Free(vars);
    InOrderOk(Optional(vars), Unindexed(vars));
    r :| 0 <= r < |free| && free[r] == a;
    q :| 0 <= q < |free| && free[q] == b;
    BeforeTotal(Optional(vars), a, b);
    BeforeTotal(Optional(vars), a, a);
  }

  /** A variable with index `k` is printed at the lesser of `k` and the number of those that come before it: one for
      every smaller index in use, and all without index. If several share the index, it is the last id among them. */
  lemma IndexedPosition(vars: Envs, id: string)
    requires LastOfIndex(vars, id)
    ensures var k := vars[id].tableIndex.value;
            var slot := Min(k, |Smaller(Indices(vars), k)| + |Unindexed(vars)|);
            0 <= slot < |SortedIds(vars)| && SortedIds(vars)[slot] == id
  {
    IndexedLast(vars, id);
    IndexedOk(vars);
    FreeOk(vars);
    SlotOf(Indexed(vars), Free(vars), vars[id].tableIndex.value);
  }

  /** Variables without an index are printed required first, then by id. */
  lemma UnindexedOrder(vars: Envs, a: string, b: string)
    requires a in vars && b in vars && vars[a].tableIndex.None? && vars[b].tableIndex.None?
    requires (vars[a].required && !vars[b].required) || (vars[a].required == vars[b].required && Less(a, b))
    ensures exists i, j :: 0 <= i < j < |SortedIds(vars)| && SortedIds(vars)[i] == a && SortedIds(vars)[j] == b
  {
    var r, q := FreeOrder(vars, a, b);
    var i, j := FillOrder(Ascending(Indexed(vars)), Free(vars), 0, r, q);
    assert SortedIds(vars)[i] == a && SortedIds(vars)[j] == b;
  }

  ghost predicate IsImage(image: set<nat>, s: set<string>, f: string -> nat) {
    forall b :: b in image <==> exists a :: a in s && f(a) == b
  }

  ghost predicate InjectiveOn(s: set<string>, f: string -> nat) {
    forall a, b :: a in s && b in s && f(a) == f(b) ==> a == b
  }

  /** The size of an image: never more than the set, and as much exactly when nothing is identified. */
  lemma {:induction false} ImageSize(s: set<string>, f: string -> nat, image: set<nat>)
    requires IsImage(image, s, f)
    ensures |image| <= |s|
    ensures |image| == |s| <==> InjectiveOn(s, f)
  {
    if s == {} {
      assert image == {};
    } else {
      var x :| x in s;
      var rest := s - {x};
      if y :| y in rest && f(y) == f(x) {
        forall b ensures b in image <==> exists a :: a in rest && f(a) == b {
          if b in image {
            var a :| a in s && f(a) == b;
            assert (if a == x then y else a) in rest;
          }
        }
        ImageSize(rest, f, image);
      } else {
        forall b ensures b in image - {f(x)} <==> exists a :: a in rest && f(a) == b {
          if b in image - {f(x)} {
            var a :| a in s && f(a) == b;
            assert a in rest;
          }
        }
        assert exists a :: a in s && f(a) == f(x);
        assert f(x) in image;
        ImageSize(rest, f, image - {f(x)});
      }
    }
  }

  function IndexOf(vars: Envs): string -> nat {
    id => if id in vars && vars[id].tableIndex.Some? then vars[id].tableIndex.value else 0
  }

  ghost function IndexedIds(vars: Envs): set<string> {
    set id | id in vars && vars[id].tableIndex.Some?
  }

  lemma DistinctIffInjective(vars: Envs)
    ensures DistinctIndices(vars) <==> InjectiveOn(IndexedIds(vars), IndexOf(vars))
  {
    forall a, b | a in IndexedIds(vars) && b in IndexedIds(vars)
      ensures IndexOf(vars)(a) == IndexOf(vars)(b) <==> vars[a].tableIndex == vars[b].tableIndex
    {
    }
  }

  lemma IndicesAreImage(vars: Envs)
    ensures IsImage(Indices(vars), IndexedIds(vars), IndexOf(vars))
  {
    forall k ensures k in Indices(vars) <==> exists id :: id in IndexedIds(vars) && IndexOf(vars)(id) == k {
      if k in Indices(vars) {
        var id :| id in vars && vars[id].tableIndex == Some(k);
        assert id in IndexedIds(vars) && IndexOf(vars)(id) == k;
      }
    }
  }

  lemma IndexedAndNot(vars: Envs)
    ensures |IndexedIds(vars)| + |Unindexed(vars)| == |vars|
  {
    assert vars.Keys == IndexedIds(vars) + Unindexed(vars);
    assert |vars| == |vars.Keys|;
  }

  /** Two variables share an index exactly when there are fewer indices than indexed variables. */
  lemma DistinctIffSize(vars: Envs)
    ensures |Indices(vars)| + |Unindexed(vars)| <= |vars|
    ensures |Indices(vars)| + |Unindexed(vars)| == |vars| <==> DistinctIndices(vars)
  {
    IndicesAreImage(vars);
    DistinctIffInjective(vars);
    IndexedAndNot(vars);
    ImageSize(IndexedIds(vars), IndexOf(vars), Indices(vars));
  }

  /** Every variable is printed exactly when no two share an index; a shared index loses all but one. */
  lemma PermutationIffDistinct(vars: Envs)
    ensures |SortedIds(vars)| == |Indices(vars)| + |Unindexed(vars)|
    ensures |SortedIds(vars)| <= |vars|
    ensures |SortedIds(vars)| == |vars| <==> DistinctIndices(vars)
  {
    IndexedOk(vars);
    FreeOk(vars);
    AscendingOk(Indexed(vars));
    FillLength(Ascending(Indexed(vars)), Free(vars), 0);
    DistinctIffSize(vars);
    assert |Indexed(vars)| == |Indexed(vars).Keys|;
  }

  /** With distinct indices every id is printed at exactly one position. */
  lemma SortedIdsOnce(vars: Envs)
    requires DistinctIndices(vars)
    ensures |SortedIds(vars)| == |vars|
    ensures forall id :: id in SortedIds(vars) <==> id in vars
    ensures forall i, j :: 0 <= i < j < |SortedIds(vars)| ==> SortedIds(vars)[i] != SortedIds(vars)[j]
  {
    PermutationIffDistinct(vars);
    SortedIdsKnown(vars);
    var ids := SortedIds(vars);
    forall id | id in vars ensures id in ids {
      PrintedSomewhere(vars, id);
    }
    NoRepeats(ids, vars.Keys);
  }

  lemma PrintedSomewhere(vars: Envs, id: string)
    requires DistinctIndices(vars) && id in vars
    ensures id in SortedIds(vars)
  {
    if vars[id].tableIndex.Some? {
      IndexedPosition(vars, id);
    } else {
      FreeOk(vars);
      assert id in Free(vars);
      var r :| 0 <= r < |Free(vars)| && Free(vars)[r] == id;
      var i := FillEmits(Ascending(Indexed(vars)), Free(vars), 0, r);
    }
  }

  /** A sequence as long as the set it covers has no repetition. */
  lemma {:induction false} NoRepeats(s: seq<string>, members: set<string>)
    requires |s| <= |members| && forall id :: id in members ==> id in s
    ensures forall i, j :: 0 <= i < j < |s| ==> s[i] != s[j]
  {
    if s != [] {
      var n := |s| - 1;
      assert s == s[..n] + [s[n]];
      var rest := members - {s[n]};
      NoRepeats(s[..n], rest);
      if s[n] in s[..n] {
        CoverBound(s[..n], members);
      }
    }
  }

  lemma {:induction false} CoverBound(s: seq<string>, members: set<string>)
    requires forall id :: id in members ==> id in s
    ensures |members| <= |s|
  {
    if s == [] {
      assert members == {};
    } else {
      var n := |s| - 1;
      assert s == s[..n] + [s[n]];
      CoverBound(s[..n], members - {s[n]});
    }
  }

  // ---- the loop ----

  /** What is still to be emitted, as a sequence. */
  ghost predicate Remains(m: map<nat, string>, free: seq<string>, pos: nat, todo: seq<string>) {
    (forall k :: k in m ==> pos <= k) && Fill(Ascending(m), free, pos) == todo
  }

  lemma RemainsTake(m: map<nat, string>, free: seq<string>, pos: nat, todo: seq<string>, k: nat)
    requires Remains(m, free, pos, todo) && k in m && (k == pos || (free == [] && k == LeastIndex(m)))
    ensures todo != [] && todo[0] == m[k] && Remains(m - {k}, free, pos + 1, todo[1..]) && |m - {k}| < |m|
  {
    FillTake(m, free, pos, k);
    Removed(m, k);
  }

  lemma RemainsSkip(m: map<nat, string>, free: seq<string>, pos: nat, todo: seq<string>)
    requires Remains(m, free, pos, todo) && pos !in m && free != []
    ensures todo != [] && todo[0] == free[0] && Remains(m, free[1..], pos + 1, todo[1..])
  {
    FillSkip(m, free, pos);
  }

  ghost predicate Emitted(goal: seq<string>, result: seq<string>, todo: seq<string>) {
    goal == result + todo
  }

  lemma EmitNext(goal: seq<string>, result: seq<string>, todo: seq<string>)
    requires Emitted(goal, result, todo) && todo != []
    ensures Emitted(goal, result + [todo[0]], todo[1..])
  {
  }

  /** The slot-filling loop over the two maps. */
  method FillSlots(indexed: map<nat, string>, free: seq<string>) returns (result: seq<string>)
    ensures result == Fill(Ascending(indexed), free, 0)
  {
    var withIndex: map<nat, string>, noIndex := indexed, free;
    ghost var goal := Fill(Ascending(indexed), free, 0);
    ghost var todo := goal;
    result := [];
    while withIndex != map[] || noIndex != []
      invariant Emitted(goal, result, todo) && Remains(withIndex, noIndex, |result|, todo)
      decreases |withIndex| + |noIndex|
    {
      var i, entry := |result|, "";
      if i in withIndex {
        RemainsTake(withIndex, noIndex, i, todo, i);
        entry, withIndex := withIndex[i], withIndex - {i};
      } else if noIndex != [] {
        RemainsSkip(withIndex, noIndex, i, todo);
        entry, noIndex := noIndex[0], noIndex[1..];
      } else {
        var k := LeastIndex(withIndex);
        RemainsTake(withIndex, noIndex, i, todo, k);
        entry, withIndex := withIndex[k], withIndex - {k};
      }
      EmitNext(goal, result, todo);
      result := result + [entry];
      todo := todo[1..];
    }
  }

  method SortedWithRequired(vars: Envs) returns (result: seq<EnvVariable>)
    ensures result == Sorted(vars)
  {
    SortedIdsKnown(vars);
    var ids := FillSlots(Indexed(vars), Free(vars));
    assert ids == SortedIds(vars);
    result := seq(|ids|, i requires 0 <= i < |ids| => vars[ids[i]]);
  }

  lemma SortedIdsKnown(vars: Envs)
    ensures forall i :: 0 <= i < |SortedIds(vars)| ==> SortedIds(vars)[i] in vars
  {
    IndexedOk(vars);
    FreeOk(vars);
    AscendingOk(Indexed(vars));
    forall i | 0 <= i < |SortedIds(vars)| ensures SortedIds(vars)[i] in vars {
      FillMembers(Ascending(Indexed(vars)), Free(vars), 0, i);
    }
  }

  /** The variables in printed order. */
  function Sorted(vars: Envs): seq<EnvVariable> {
    SortedIdsKnown(vars);
    var ids := SortedIds(vars);
    seq(|ids|, i requires 0 <= i < |ids| => vars[ids[i]])
  }
}
