/** `DeploymentHelper`: the module table it refreshes in place, the loops that build the order and the waves, and
    the sequential branch of `invoke`. */
module Deployment {
  import opened DeploymentOrder

  class DeploymentHelper {
    const moduleIds: seq<string>
    const upgrade: bool
    const priority: string -> int  // get_module_deployment_priority
    var clusterModules: map<string, ModuleInfo>
    var deployments: seq<string>  // the modules handed to deploy_module so far

    constructor (moduleIds: seq<string>, upgrade: bool, priority: string -> int, rows: seq<(string, ModuleInfo)>)
      ensures this.moduleIds == moduleIds && this.upgrade == upgrade && this.priority == priority
      ensures clusterModules == Refreshed(map[], rows) && deployments == []
    {
      this.moduleIds, this.upgrade, this.priority := moduleIds, upgrade, priority;
      clusterModules, deployments := map[], [];
      new;
      InitializeClusterModules(rows);
    }

    /** `initialize_cluster_modules`: the rows read are filed over what is known. */
    method InitializeClusterModules(rows: seq<(string, ModuleInfo)>)
      modifies this`clusterModules
      ensures clusterModules == Refreshed(old(clusterModules), rows)
      ensures forall id :: id in clusterModules <==> id in old(clusterModules) || HasRow(rows, id)
      ensures forall id | id in old(clusterModules) && !HasRow(rows, id) :: clusterModules[id] == old(clusterModules)[id]
      ensures forall i: nat | IsLastRow(rows, i) :: rows[i].0 in clusterModules && clusterModules[rows[i].0] == rows[i].1
    {
      RefreshedModules(clusterModules, rows);
      for i := 0 to |rows|
        invariant clusterModules == Refreshed(old(clusterModules), rows[..i])
      {
        assert rows[..i + 1][..i] == rows[..i];
        clusterModules := clusterModules[rows[i].0 := rows[i].1];
      }
      assert rows[..|rows|] == rows;
    }

    method GetDeploymentOrder() returns (order: Result<seq<string>>)
      ensures order == match Order(moduleIds, clusterModules, upgrade, priority)
                       case KeyError(id) => KeyError(id)
                       case Ok(items) => Ok(Ids(items))
    {
      var items: seq<Item> := [];
      for i := 0 to |moduleIds|
        invariant Candidates(moduleIds[..i], clusterModules, upgrade, priority) == Ok(items)
      {
        var moduleId := moduleIds[i];
        assert moduleIds[..i + 1][..i] == moduleIds[..i];
        if moduleId !in clusterModules {
          KeyErrorStays(i + 1);
          return KeyError(moduleId);
        }
        var info := clusterModules[moduleId];
        if info.kind == CONFIG {
          continue;
        }
        if info.status == DEPLOYED {
          if !upgrade {
            continue;
          }
        }
        items := items + [Item(moduleId, priority(info.name))];
      }
      assert moduleIds[..|moduleIds|] == moduleIds;
      items := StableSort(items);
      order := Ok(Ids(items));
    }

    lemma {:induction false} KeyErrorStays(n: nat)
      requires n <= |moduleIds| && Candidates(moduleIds[..n], clusterModules, upgrade, priority).KeyError?
      ensures Candidates(moduleIds, clusterModules, upgrade, priority)
           == Candidates(moduleIds[..n], clusterModules, upgrade, priority)
      decreases |moduleIds| - n
    {
      if n < |moduleIds| {
        assert moduleIds[..n + 1][..n] == moduleIds[..n];
        KeyErrorStays(n + 1);
      } else {
        assert moduleIds[..n] == moduleIds;
      }
    }

    method GetOptimizedDeploymentOrder() returns (waves: Result<seq<Wave>>)
      ensures waves == match Order(moduleIds, clusterModules, upgrade, priority)
                       case KeyError(id) => KeyError(id)
                       case Ok(items) => Ok(Waves(items))
    {
      hide StableSort, Candidates;
      var order := GetDeploymentOrder();
      if order.KeyError? {
        return KeyError(order.moduleId);
      }
      ghost var items := Order(moduleIds, clusterModules, upgrade, priority).value;
      OrderItems(moduleIds, clusterModules, upgrade, priority);
      var deployments: seq<Wave> := [];
      for i := 0 to |order.value|
        invariant deployments == Waves(items[..i])
      {
        assert items[..i + 1][..i] == items[..i];
        var moduleId := order.value[i];
        assert items[i].moduleId == moduleId;
        var info := clusterModules[moduleId];
        if info.kind == CONFIG {
          continue;
        }
        if info.status == DEPLOYED {
          if !upgrade {
            continue;
          }
        }
        var p := priority(info.name);
        var k := IndexOfWave(deployments, p);
        if k < |deployments| {
          deployments := deployments[k := Wave(p, deployments[k].moduleIds + [moduleId])];
        } else {
          deployments := deployments + [Wave(p, [moduleId])];
        }
      }
      assert items[..|items|] == items;
      waves := Ok(deployments);
    }

    /** The sequential branch of `invoke`: each module in order, until `deploy_module` raises for one. */
    method InvokeSequentially(raises: (nat, string) -> bool) returns (outcome: Result<bool>)
      requires deployments == []
      modifies this`deployments
      ensures match Order(moduleIds, clusterModules, upgrade, priority)
              case KeyError(id) => outcome == KeyError(id) && deployments == []
              case Ok(items) =>
                && outcome.Ok? && deployments <= Ids(items)
                && (forall i | 0 <= i < |deployments| - 1 :: !raises(i, deployments[i]))
                && (outcome.value <==> deployments == Ids(items)
                                       && (deployments != [] ==> !raises(|deployments| - 1, deployments[|deployments| - 1])))
                && (!outcome.value ==> deployments != [] && raises(|deployments| - 1, deployments[|deployments| - 1]))
    {
      hide StableSort, Candidates, Order;
      var order := GetDeploymentOrder();
      if order.KeyError? {
        return KeyError(order.moduleId);
      }
      for i := 0 to |order.value|
        invariant deployments == order.value[..i]
        invariant forall j | 0 <= j < i :: !raises(j, order.value[j])
      {
        deployments := deployments + [order.value[i]];
        if raises(i, order.value[i]) {
          return Ok(false);
        }
      }
      outcome := Ok(true);
    }
  }

  predicate HasRow(rows: seq<(string, ModuleInfo)>, id: string) {
    exists i | 0 <= i < |rows| :: rows[i].0 == id
  }

  predicate IsLastRow(rows: seq<(string, ModuleInfo)>, i: nat) {
    i < |rows| && forall j | i < j < |rows| :: rows[j].0 != rows[i].0
  }

  /** No module is forgotten, and the last row of a module decides what is known of it. */
  lemma RefreshedModules(modules: map<string, ModuleInfo>, rows: seq<(string, ModuleInfo)>)
    ensures var r := Refreshed(modules, rows);
            && (forall id :: id in r <==> id in modules || HasRow(rows, id))
            && (forall id | id in modules && !HasRow(rows, id) :: r[id] == modules[id])
            && (forall i: nat | IsLastRow(rows, i) :: rows[i].0 in r && r[rows[i].0] == rows[i].1)
  {
    hide Refreshed, HasRow, IsLastRow;
    forall id ensures id in Refreshed(modules, rows) <==> id in modules || HasRow(rows, id) {
      RefreshedHas(modules, rows, id);
    }
    forall id | id in modules && !HasRow(rows, id)
      ensures id in Refreshed(modules, rows) && Refreshed(modules, rows)[id] == modules[id]
    {
      RefreshedHas(modules, rows, id);
    }
    forall i: nat | IsLastRow(rows, i)
      ensures i < |rows| && rows[i].0 in Refreshed(modules, rows) && Refreshed(modules, rows)[rows[i].0] == rows[i].1
    {
      RefreshedLast(modules, rows, i);
    }
  }

  lemma {:induction false} RefreshedHas(modules: map<string, ModuleInfo>, rows: seq<(string, ModuleInfo)>, id: string)
    ensures id in Refreshed(modules, rows) <==> id in modules || HasRow(rows, id)
    ensures id in modules && !HasRow(rows, id) ==> Refreshed(modules, rows)[id] == modules[id]
  {
    if rows != [] {
      RefreshedHas(modules, rows[..|rows| - 1], id);
    }
  }

  lemma {:induction false} RefreshedLast(modules: map<string, ModuleInfo>, rows: seq<(string, ModuleInfo)>, i: nat)
    requires IsLastRow(rows, i)
    ensures i < |rows| && rows[i].0 in Refreshed(modules, rows) && Refreshed(modules, rows)[rows[i].0] == rows[i].1
  {
    if i < |rows| - 1 {
      assert rows[|rows| - 1].0 != rows[i].0;
      RefreshedLast(modules, rows[..|rows| - 1], i);
    }
  }

  function Refreshed(modules: map<string, ModuleInfo>, rows: seq<(string, ModuleInfo)>): map<string, ModuleInfo> {
    if rows == [] then modules
    else Refreshed(modules, rows[..|rows| - 1])[rows[|rows| - 1].0 := rows[|rows| - 1].1]
  }
}
