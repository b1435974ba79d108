/** Which modules are deployed, in which order, and in which waves: `get_deployment_order` and
    `get_optimized_deployment_order`. */
module DeploymentOrder {

  datatype ModuleInfo = ModuleInfo(name: string, kind: string, status: string)

  const CONFIG := "config"
  const DEPLOYED := "deployed"

  datatype Result<T> = Ok(value: T) | KeyError(moduleId: string)

  datatype Item = Item(moduleId: string, priority: int)

  datatype Wave = Wave(priority: int, moduleIds: seq<string>)

  /** A module that is to be deployed: not a config module, and not deployed already unless upgrading. */
  predicate Eligible(info: ModuleInfo, upgrade: bool) {
    info.kind != CONFIG && (info.status == DEPLOYED ==> upgrade)
  }

  // ---------------------------------------------------------------- Python's stable sort

  function InsertByPriority(sorted: seq<Item>, x: Item): seq<Item> {
    if sorted == [] then [x]
    else
      var last := sorted[|sorted| - 1];
      if x.priority < last.priority then InsertByPriority(sorted[..|sorted| - 1], x) + [last] else sorted + [x]
  }

  /** `items.sort(key=lambda m: m['priority'])` */
  function StableSort(items: seq<Item>): seq<Item> {
    if items == [] then []
    else InsertByPriority(StableSort(items[..|items| - 1]), items[|items| - 1])
  }

  predicate SortedByPriority(items: seq<Item>) {
    forall i, j | 0 <= i < j < |items| :: items[i].priority <= items[j].priority
  }

  /** The items of one priority, in order. */
  function OfPriority(items: seq<Item>, p: int): seq<Item> {
    if items == [] then []
    else (if items[0].priority == p then [items[0]] else []) + OfPriority(items[1..], p)
  }

  lemma {:induction false} OfPriorityConcat(a: seq<Item>, b: seq<Item>, p: int)
    ensures OfPriority(a + b, p) == OfPriority(a, p) + OfPriority(b, p)
  {
    if a == [] {
      assert a + b == b;
    } else {
      assert (a + b)[0] == a[0] && (a + b)[1..] == a[1..] + b;
      OfPriorityConcat(a[1..], b, p);
    }
  }

  lemma {:induction false} InsertAdds(sorted: seq<Item>, x: Item)
    ensures multiset(InsertByPriority(sorted, x)) == multiset(sorted) + multiset{x}
  {
    if sorted != [] {
      var before, last := sorted[..|sorted| - 1], sorted[|sorted| - 1];
      assert sorted == before + [last];
      InsertAdds(before, x);
    }
  }

  lemma {:induction false} InsertSorts(sorted: seq<Item>, x: Item)
    requires SortedByPriority(sorted)
    ensures SortedByPriority(InsertByPriority(sorted, x))
  {
    if sorted != [] {
      var before, last := sorted[..|sorted| - 1], sorted[|sorted| - 1];
      if x.priority < last.priority {
        InsertSorts(before, x);
        InsertAdds(before, x);
        BoundedBy(InsertByPriority(before, x), before, x, last.priority);
      }
    }
  }

  lemma BoundedBy(r: seq<Item>, before: seq<Item>, x: Item, bound: int)
    requires multiset(r) == multiset(before) + multiset{x} && x.priority <= bound
    requires forall i | 0 <= i < |before| :: before[i].priority <= bound
    ensures forall i | 0 <= i < |r| :: r[i].priority <= bound
  {
    forall i | 0 <= i < |r| ensures r[i].priority <= bound {
      assert r[i] in multiset(r);
      assert r[i] in before || r[i] == x;
    }
  }

  lemma {:induction false} InsertKeepsOrder(sorted: seq<Item>, x: Item, p: int)
    requires SortedByPriority(sorted)
    ensures OfPriority(InsertByPriority(sorted, x), p) == OfPriority(sorted, p) + OfPriority([x], p)
  {
    if sorted != [] {
      var before, last := sorted[..|sorted| - 1], sorted[|sorted| - 1];
      assert sorted == before + [last];
      OfPriorityConcat(before, [last], p);
      if x.priority < last.priority {
        InsertKeepsOrder(before, x, p);
        OfPriorityConcat(InsertByPriority(before, x), [last], p);
      } else {
        OfPriorityConcat(sorted, [x], p);
      }
    }
  }

  /** The sort is sorted, a permutation, and stable: items of one priority keep their order. */
  lemma {:induction false} StableSortSorts(items: seq<Item>)
    ensures SortedByPriority(StableSort(items))
    ensures multiset(StableSort(items)) == multiset(items)
    ensures forall p :: OfPriority(StableSort(items), p) == OfPriority(items, p)
  {
    if items != [] {
      var before, last := items[..|items| - 1], items[|items| - 1];
      assert items == before + [last];
      StableSortSorts(before);
      InsertSorts(StableSort(before), last);
      InsertAdds(StableSort(before), last);
      forall p ensures OfPriority(StableSort(items), p) == OfPriority(items, p) {
        InsertKeepsOrder(StableSort(before), last, p);
        OfPriorityConcat(before, [last], p);
      }
    }
  }

  /** Nothing else is: sortedness and stability determine the result. */
  lemma {:induction false} SortedStableIsUnique(a: seq<Item>, b: seq<Item>)
    requires SortedByPriority(a) && SortedByPriority(b)
    requires forall p :: OfPriority(a, p) == OfPriority(b, p)
    ensures a == b
    decreases |a|
  {
    if a == [] {
      if b != [] {
        HasPriority(b, 0);
      }
    } else {
      FirstIsLeast(a, b);
      forall p ensures OfPriority(a[1..], p) == OfPriority(b[1..], p) {
        DropFirst(a, p);
        DropFirst(b, p);
      }
      SortedStableIsUnique(a[1..], b[1..]);
      assert a == [a[0]] + a[1..] && b == [b[0]] + b[1..];
    }
  }

  lemma DropFirst(items: seq<Item>, p: int)
    requires items != []
    ensures OfPriority(items[1..], p) == if items[0].priority == p then OfPriority(items, p)[1..] else OfPriority(items, p)
  {
  }

  lemma {:induction false} HasPriority(items: seq<Item>, i: nat)
    requires i < |items|
    ensures OfPriority(items, items[i].priority) != []
  {
    if i > 0 {
      HasPriority(items[1..], i - 1);
    }
  }

  lemma {:induction false} PriorityOccurs(items: seq<Item>, p: int)
    requires OfPriority(items, p) != []
    ensures exists i :: 0 <= i < |items| && items[i].priority == p
  {
    if items[0].priority != p {
      PriorityOccurs(items[1..], p);
      var i :| 0 <= i < |items[1..]| && items[1..][i].priority == p;
      assert items[i + 1].priority == p;
    }
  }

  lemma FirstIsLeast(a: seq<Item>, b: seq<Item>)
    requires SortedByPriority(a) && SortedByPriority(b) && a != []
    requires forall p :: OfPriority(a, p) == OfPriority(b, p)
    ensures b != [] && a[0] == b[0]
  {
    var p := a[0].priority;
    HasPriority(a, 0);
    PriorityOccurs(b, p);
    var q := b[0].priority;
    HasPriority(b, 0);
    PriorityOccurs(a, q);
    assert OfPriority(a, p)[0] == a[0] && OfPriority(b, q)[0] == b[0];
  }

  // ---------------------------------------------------------------- the order

  function Ids(items: seq<Item>): (r: seq<string>)
    ensures |r| == |items|
    ensures forall i | 0 <= i < |r| :: r[i] == items[i].moduleId
  {
    seq(|items|, i requires 0 <= i < |items| => items[i].moduleId)
  }

  /** The eligible modules of `ids`, in order, duplicates included; an unknown id raises. */
  function Candidates(ids: seq<string>, modules: map<string, ModuleInfo>, upgrade: bool, priority: string -> int): Result<seq<Item>> {
    if ids == [] then Ok([])
    else
      match Candidates(ids[..|ids| - 1], modules, upgrade, priority)
      case KeyError(id) => KeyError(id)
      case Ok(items) =>
        var id := ids[|ids| - 1];
        if id !in modules then KeyError(id)
        else if Eligible(modules[id], upgrade) then Ok(items + [Item(id, priority(modules[id].name))])
        else Ok(items)
  }

  function Order(ids: seq<string>, modules: map<string, ModuleInfo>, upgrade: bool, priority: string -> int): Result<seq<Item>> {
    match Candidates(ids, modules, upgrade, priority)
    case KeyError(id) => KeyError(id)
    case Ok(items) => Ok(StableSort(items))
  }

  /** Every item of the order is an eligible module with its own priority. */
  ghost predicate ItemsOf(items: seq<Item>, modules: map<string, ModuleInfo>, upgrade: bool, priority: string -> int) {
    forall i | 0 <= i < |items| ::
      var id := items[i].moduleId;
      id in modules && Eligible(modules[id], upgrade) && items[i].priority == priority(modules[id].name)
  }

  lemma {:induction false} CandidatesAreItems(ids: seq<string>, modules: map<string, ModuleInfo>, upgrade: bool, priority: string -> int)
    requires Candidates(ids, modules, upgrade, priority).Ok?
    ensures ItemsOf(Candidates(ids, modules, upgrade, priority).value, modules, upgrade, priority)
    ensures forall id | id in ids :: id in modules
    ensures forall id | id in ids && Eligible(modules[id], upgrade) ::
              exists i :: 0 <= i < |Candidates(ids, modules, upgrade, priority).value|
                          && Candidates(ids, modules, upgrade, priority).value[i].moduleId == id
  {
    if ids != [] {
      CandidatesAreItems(ids[..|ids| - 1], modules, upgrade, priority);
      var before := Candidates(ids[..|ids| - 1], modules, upgrade, priority).value;
      var all := Candidates(ids, modules, upgrade, priority).value;
      assert before <= all;
      forall id | id in ids && Eligible(modules[id], upgrade)
        ensures exists i :: 0 <= i < |all| && all[i].moduleId == id
      {
        if id in ids[..|ids| - 1] {
          var i :| 0 <= i < |before| && before[i].moduleId == id;
          assert all[i].moduleId == id;
        } else {
          assert all[|all| - 1].moduleId == id;
        }
      }
    }
  }

  /** The candidates are the given ids, in the order given and as often, without those of config modules and, unless
      upgrading, of deployed ones: item `i` is for the id at `at[i]`. */
  lemma {:induction false} CandidatesInOrder(ids: seq<string>, modules: map<string, ModuleInfo>, upgrade: bool, priority: string -> int)
    returns (at: seq<nat>)
    requires Candidates(ids, modules, upgrade, priority).Ok?
    ensures var items := Candidates(ids, modules, upgrade, priority).value;
            && |at| == |items|
            && (forall i, j | 0 <= i < j < |at| :: at[i] < at[j])
            && (forall i | 0 <= i < |at| :: at[i] < |ids| && items[i].moduleId == ids[at[i]])
    ensures forall j: nat | j < |ids| ::
              ids[j] in modules
              && (j in at <==> modules[ids[j]].kind != "config" && (upgrade || modules[ids[j]].status != "deployed"))
  {
    if ids == [] {
      at := [];
    } else {
      var n := |ids| - 1;
      at := CandidatesInOrder(ids[..n], modules, upgrade, priority);
      assert forall j: nat | j < n :: ids[..n][j] == ids[j];
      if Eligible(modules[ids[n]], upgrade) {
        at := at + [n];
      }
    }
  }

  /** There are candidates unless some id is unknown; then the first of those is the one that raises. */
  lemma {:induction false} UnknownIdRaises(ids: seq<string>, modules: map<string, ModuleInfo>, upgrade: bool, priority: string -> int)
    ensures Candidates(ids, modules, upgrade, priority).Ok? <==> forall id | id in ids :: id in modules
    ensures forall i: nat | i < |ids| && ids[i] !in modules && (forall j | 0 <= j < i :: ids[j] in modules) ::
              Candidates(ids, modules, upgrade, priority) == KeyError(ids[i])
  {
    if ids != [] {
      var n := |ids| - 1;
      UnknownIdRaises(ids[..n], modules, upgrade, priority);
      assert ids == ids[..n] + [ids[n]];
      forall i: nat | i < |ids| && ids[i] !in modules && (forall j | 0 <= j < i :: ids[j] in modules)
        ensures Candidates(ids, modules, upgrade, priority) == KeyError(ids[i])
      {
        if i < n {
          assert ids[..n][i] == ids[i] && forall j | 0 <= j < i :: ids[..n][j] == ids[j];
          assert ids[..n][i] in ids[..n];
        } else {
          assert forall id | id in ids[..n] :: id in modules;
        }
      }
    }
  }

  lemma OrderItems(ids: seq<string>, modules: map<string, ModuleInfo>, upgrade: bool, priority: string -> int)
    requires Order(ids, modules, upgrade, priority).Ok?
    ensures ItemsOf(Order(ids, modules, upgrade, priority).value, modules, upgrade, priority)
  {
    CandidatesAreItems(ids, modules, upgrade, priority);
    var items := Candidates(ids, modules, upgrade, priority).value;
    StableSortSorts(items);
    forall i | 0 <= i < |StableSort(items)| ensures StableSort(items)[i] in items {
      assert StableSort(items)[i] in multiset(StableSort(items));
    }
  }

  // ---------------------------------------------------------------- the waves

  function IndexOfWave(waves: seq<Wave>, p: int): (i: nat)
    ensures i <= |waves|
    ensures i < |waves| ==> waves[i].priority == p
    ensures forall j | 0 <= j < i :: waves[j].priority != p
  {
    if waves == [] || waves[0].priority == p then 0 else 1 + IndexOfWave(waves[1..], p)
  }

  /** One item filed in the ordered dict of waves. */
  function FileItem(waves: seq<Wave>, item: Item): seq<Wave> {
    var i := IndexOfWave(waves, item.priority);
    if i < |waves| then waves[i := Wave(item.priority, waves[i].moduleIds + [item.moduleId])]
    else waves + [Wave(item.priority, [item.moduleId])]
  }

  function Waves(items: seq<Item>): seq<Wave> {
    if items == [] then [] else FileItem(Waves(items[..|items| - 1]), items[|items| - 1])
  }

  function Flatten(waves: seq<Wave>): seq<Item> {
    if waves == [] then []
    else Flatten(waves[..|waves| - 1]) + ItemsOfWave(waves[|waves| - 1])
  }

  function ItemsOfWave(wave: Wave): (r: seq<Item>)
    ensures |r| == |wave.moduleIds|
    ensures forall i | 0 <= i < |r| :: r[i] == Item(wave.moduleIds[i], wave.priority)
  {
    seq(|wave.moduleIds|, i requires 0 <= i < |wave.moduleIds| => Item(wave.moduleIds[i], wave.priority))
  }

  ghost predicate ProperWaves(waves: seq<Wave>) {
    && (forall i | 0 <= i < |waves| :: waves[i].moduleIds != [])
    && (forall i, j | 0 <= i < j < |waves| :: waves[i].priority < waves[j].priority)
  }

  /** On a sorted order, an item belongs to the last wave or opens the next one. */
  lemma FileLast(waves: seq<Wave>, item: Item)
    requires ProperWaves(waves)
    requires waves != [] ==> waves[|waves| - 1].priority <= item.priority
    ensures ProperWaves(FileItem(waves, item))
    ensures Flatten(FileItem(waves, item)) == Flatten(waves) + [item]
    ensures FileItem(waves, item)[|FileItem(waves, item)| - 1].priority == item.priority
  {
    var n := |waves| - 1;
    var r := FileItem(waves, item);
    if waves != [] && waves[n].priority == item.priority {
      assert IndexOfWave(waves, item.priority) == n;
      assert r[..n] == waves[..n];
      assert ItemsOfWave(r[n]) == ItemsOfWave(waves[n]) + [item];
      assert Flatten(waves[..n]) + (ItemsOfWave(waves[n]) + [item]) == Flatten(waves[..n]) + ItemsOfWave(waves[n]) + [item];
    } else {
      assert IndexOfWave(waves, item.priority) == |waves|;
      assert r[..|waves|] == waves;
      assert ItemsOfWave(r[|waves|]) == [item];
    }
  }

  lemma SortedPrefix(items: seq<Item>)
    requires SortedByPriority(items) && items != []
    ensures SortedByPriority(items[..|items| - 1])
    ensures |items| > 1 ==> items[..|items| - 1][|items| - 2].priority <= items[|items| - 1].priority
    ensures items == items[..|items| - 1] + [items[|items| - 1]]
  {
  }

  /** Waves are non-empty, of one priority each, strictly increasing, and put end to end they are the order. */
  lemma {:induction false} WavesRefineOrder(items: seq<Item>)
    requires SortedByPriority(items)
    ensures ProperWaves(Waves(items)) && Flatten(Waves(items)) == items
    ensures items != [] ==>
              Waves(items) != [] && Waves(items)[|Waves(items)| - 1].priority == items[|items| - 1].priority
    decreases |items|
  {
    if items != [] {
      SortedPrefix(items);
      WavesRefineOrder(items[..|items| - 1]);
      FileLast(Waves(items[..|items| - 1]), items[|items| - 1]);
    }
  }
}
