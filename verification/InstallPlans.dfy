/**
  pkg/gatherers/clusterconfig/gather_install_plans.go: counting install plans and reporting the most frequent.

  The plans are a Go map, so Marshal visits them in any order, and in another order the second time.
 */
module InstallPlans {
  import opened Options
  import opened Sums

  // ---------- collecting ----------

  /** An item of the list: malformed, or with its names; a name that is not a string is None. */
  datatype Item = Malformed | Item(namespace: string, generateName: string, csvNames: seq<Option<string>>)

  datatype Plan = Plan(namespace: string, name: string, csv: string, count: nat)

  type Plans = map<string, Plan>

  function Csv(item: Item): string
    requires item.Item?
  {
    if item.csvNames == [] then "[NONE]" else if item.csvNames[0].None? then "" else item.csvNames[0].value
  }

  function KeyString(namespace: string, name: string, csv: string): string { namespace + "." + name + "." + csv }

  function KeyOf(item: Item): string
    requires item.Item?
  {
    KeyString(item.namespace, item.generateName, Csv(item))
  }

  predicate HasKey(item: Item, key: string) { item.Item? && KeyOf(item) == key }

  function CountKey(items: seq<Item>, key: string): nat
  {
    if items == [] then 0
    else CountKey(items[..|items| - 1], key) + if HasKey(items[|items| - 1], key) then 1 else 0
  }

  predicate WellFormed(items: seq<Item>) { forall i | 0 <= i < |items| :: items[i].Item? }

  /** One plan per key, counted as often as the key occurs, with the names of such an item. */
  ghost predicate Collected(recs: Plans, items: seq<Item>)
  {
    forall key ::
      && (key in recs <==> CountKey(items, key) > 0)
      && (key in recs ==> recs[key].count == CountKey(items, key)
                          && KeyString(recs[key].namespace, recs[key].name, recs[key].csv) == key)
  }

  /** The namespace, the generateName, and the first CSV name: "[NONE]" without one, empty if it is not a string. */
  predicate NamedAfter(plan: Plan, item: Item)
  {
    && item.Item? && plan.namespace == item.namespace && plan.name == item.generateName
    && if item.csvNames == [] then plan.csv == "[NONE]"
       else item.csvNames[0] == Some(plan.csv) || (item.csvNames[0] == None && plan.csv == "")
  }

  /** Each plan has the names of the first item of its key. */
  ghost predicate Named(recs: Plans, items: seq<Item>)
  {
    forall key | key in recs :: NamedByFirst(recs[key], items, key)
  }

  ghost predicate NamedByFirst(plan: Plan, items: seq<Item>, key: string)
  {
    exists i :: 0 <= i < |items| && NamedAfter(plan, items[i]) && HasKey(items[i], key)
                && forall j | 0 <= j < i :: !HasKey(items[j], key)
  }

  lemma {:induction false} NoneHasKey(items: seq<Item>, key: string)
    requires CountKey(items, key) == 0
    ensures forall i | 0 <= i < |items| :: !HasKey(items[i], key)
  {
    hide HasKey;
    if items != [] {
      NoneHasKey(items[..|items| - 1], key);
    }
  }

  /** A plan that stays has its first item; a new one is named after the item that brings its key. */
  lemma {:induction false} StayNamed(recs: Plans, recs': Plans, items: seq<Item>, item: Item, key: string)
    requires Named(recs, items) && key in recs' && HasKey(item, key)
    requires recs'.Keys == recs.Keys + {key} && forall k | k in recs && k != key :: recs'[k] == recs[k]
    requires key in recs ==> recs'[key] == recs[key].(count := recs'[key].count)
    requires key !in recs ==> NamedAfter(recs'[key], item) && CountKey(items, key) == 0
    ensures Named(recs', items + [item])
  {
    hide HasKey, CountKey, KeyString;
    var all := items + [item];
    forall k | k in recs' ensures NamedByFirst(recs'[k], all, k) {
      if k in recs {
        assert NamedByFirst(recs[k], items, k);
        var i :| 0 <= i < |items| && NamedAfter(recs[k], items[i]) && HasKey(items[i], k)
                 && forall j | 0 <= j < i :: !HasKey(items[j], k);
        assert NamedAfter(recs'[k], all[i]);
      } else {
        NoneHasKey(items, key);
        assert NamedAfter(recs'[k], all[|items|]);
      }
    }
  }

  method CollectInstallPlan(recs: Plans, item: Item, ghost items: seq<Item>) returns (recs': Plans, err: bool)
    requires Collected(recs, items) && Named(recs, items)
    ensures err <==> item.Malformed?
    ensures !err ==> Collected(recs', items + [item]) && Named(recs', items + [item])
  {
    hide KeyString, CountKey, Named;
    if item.Malformed? {
      return recs, true;
    }
    var csv := "[NONE]";
    if |item.csvNames| > 0 {
      csv := if item.csvNames[0].Some? then item.csvNames[0].value else "";
    }
    var key := KeyString(item.namespace, item.generateName, csv);
    forall k ensures CountKey(items + [item], k) == CountKey(items, k) + if k == key then 1 else 0 {
      CountMore(items, item, k);
    }
    if key !in recs {
      recs' := recs[key := Plan(item.namespace, item.generateName, csv, 1)];
    } else {
      recs' := recs[key := recs[key].(count := recs[key].count + 1)];
    }
    StayNamed(recs, recs', items, item, key);
    err := false;
  }

  lemma {:induction false} CountMore(items: seq<Item>, item: Item, key: string)
    ensures CountKey(items + [item], key) == CountKey(items, key) + if HasKey(item, key) then 1 else 0
  {
    assert (items + [item])[..|items|] == items;
  }

  /** The items of all pages; one malformed item fails the whole collection. */
  method Collect(items: seq<Item>) returns (recs: Plans, total: nat, err: bool)
    ensures err <==> !WellFormed(items)
    ensures !err ==> Collected(recs, items) && Named(recs, items) && total == |items|
  {
    hide Collected, CountKey, Named;
    recs, total := map[], |items|;
    NothingCollected();
    for i := 0 to |items|
      invariant Collected(recs, items[..i]) && Named(recs, items[..i]) && WellFormed(items[..i])
    {
      recs, err := CollectInstallPlan(recs, items[i], items[..i]);
      if err {
        return;
      }
      assert items[..i + 1] == items[..i] + [items[i]];
    }
    assert items[..|items|] == items;
    err := false;
  }

  lemma {:induction false} NothingCollected()
    ensures Collected(map[], []) && Named(map[], [])
  {}

  function CountOf(plan: Plan): nat { plan.count }

  ghost function SumCounts(recs: Plans): nat { Sum(recs, CountOf) }

  /** The counts add up to the number of items. */
  lemma {:induction false} CountsAddUp(recs: Plans, items: seq<Item>)
    requires Collected(recs, items) && WellFormed(items)
    ensures SumCounts(recs) == |items|
  {
    hide KeyString, CountKey, Sum;
    if items == [] {
      NoItems(recs);
    } else {
      var init, last := items[..|items| - 1], items[|items| - 1];
      var key := KeyOf(last);
      assert items == init + [last];
      forall k ensures CountKey(items, k) == CountKey(init, k) + if k == key then 1 else 0 {
        CountMore(init, last, k);
      }
      assert key in recs;
      var before := if recs[key].count == 1 then recs - {key}
        else recs[key := recs[key].(count := recs[key].count - 1)];
      assert Collected(before, init);
      CountsAddUp(before, init);
      SumWithout(recs, CountOf, key);
      if recs[key].count > 1 {
        SumWithout(before, CountOf, key);
        assert before - {key} == recs - {key};
      }
    }
  }

  lemma {:induction false} NoItems(recs: Plans)
    requires Collected(recs, [])
    ensures SumCounts(recs) == 0
  {
    assert forall key :: CountKey([], key) == 0;
    assert recs == map[];
  }

  /** Two plans whose names differ only in where a dot falls are counted as one. */
  lemma {:induction false} DotsMergePlans(ns: string, name: string, part: string, csv: string, recs: Plans)
    requires var a := Item(ns, name + "." + part, [Some(csv)]);
             var b := Item(ns, name, [Some(part + "." + csv)]);
             Collected(recs, [a, b])
    ensures exists key :: recs.Keys == {key} && recs[key].count == 2
  {
    var a := Item(ns, name + "." + part, [Some(csv)]);
    var b := Item(ns, name, [Some(part + "." + csv)]);
    var key := KeyOf(a);
    assert KeyOf(b) == key;
    hide KeyString;
    forall k ensures CountKey([a, b], k) == if k == key then 2 else 0 {
      CountMore([], a, k);
      CountMore([a], b, k);
      assert [] + [a] == [a] && [a] + [b] == [a, b];
    }
    assert recs.Keys == {key};
  }

  // ---------- plans with the same key ----------

  /** The names of the second are those of the first with a dot moved from the csv into the name. */
  ghost predicate DotMoved(name: string, csv: string, name': string, csv': string)
  {
    exists part :: name' == name + "." + part && csv == part + "." + csv'
  }

  /** Namespaces are DNS labels, without dots: then keys are equal exactly for equal names, up to a dot that moves. */
  lemma {:induction false} KeysExactly(ns: string, name: string, csv: string, ns': string, name': string, csv': string)
    requires '.' !in ns && '.' !in ns'
    ensures KeyString(ns, name, csv) == KeyString(ns', name', csv')
            <==> ns == ns'
                 && (|| (name == name' && csv == csv')
                     || DotMoved(name, csv, name', csv')
                     || DotMoved(name', csv', name, csv))
  {
    var rest, rest' := name + "." + csv, name' + "." + csv';
    assert KeyString(ns, name, csv) == ns + "." + rest && KeyString(ns', name', csv') == ns' + "." + rest';
    FirstDot(ns, rest, ns', rest');
    TwoCuts(name, csv, name', csv');
  }

  /** Before the first dot there is only one way to cut. */
  lemma {:induction false} FirstDot(a: string, b: string, a': string, b': string)
    requires '.' !in a && '.' !in a'
    ensures a + "." + b == a' + "." + b' <==> a == a' && b == b'
  {
    var s, s' := a + "." + b, a' + "." + b';
    if |a| < |a'| {
      NoDotBefore(a', b', |a|);
    }
    if |a'| < |a| {
      NoDotBefore(a, b, |a'|);
    }
    assert s[|a|] == '.' && s'[|a'|] == '.';
    if s == s' {
      SameCut(a, b, a', b');
    }
  }

  lemma {:induction false} NoDotBefore(a: string, b: string, k: nat)
    requires '.' !in a && k < |a|
    ensures (a + "." + b)[k] != '.'
  {
    assert a[k] in a;
  }

  /** Two cuts of one text at dots are the same cut, or one lies behind the other. */
  lemma {:induction false} TwoCuts(a: string, b: string, a': string, b': string)
    ensures a + "." + b == a' + "." + b' <==> (a == a' && b == b') || DotMoved(a, b, a', b') || DotMoved(a', b', a, b)
  {
    if DotMoved(a, b, a', b') {
      MovedIsSame(a, b, a', b');
    }
    if DotMoved(a', b', a, b) {
      MovedIsSame(a', b', a, b);
    }
    if a + "." + b == a' + "." + b' {
      if |a| == |a'| {
        SameCut(a, b, a', b');
      } else if |a| < |a'| {
        LaterCut(a, b, a', b');
      } else {
        LaterCut(a', b', a, b);
      }
    }
  }

  lemma {:induction false} MovedIsSame(a: string, b: string, a': string, b': string)
    requires DotMoved(a, b, a', b')
    ensures a + "." + b == a' + "." + b'
  {
    var part :| a' == a + "." + part && b == part + "." + b';
    assert a + "." + b == a + "." + part + "." + b';
  }

  lemma {:induction false} SameCut(a: string, b: string, a': string, b': string)
    requires a + "." + b == a' + "." + b' && |a| == |a'|
    ensures a == a' && b == b'
  {
    var s, s' := a + "." + b, a' + "." + b';
    assert a == s[..|a|] && a' == s'[..|a|];
    assert b == s[|a| + 1..] && b' == s'[|a| + 1..];
  }

  lemma {:induction false} LaterCut(a: string, b: string, a': string, b': string)
    requires a + "." + b == a' + "." + b' && |a| < |a'|
    ensures DotMoved(a, b, a', b')
  {
    var s, s' := a + "." + b, a' + "." + b';
    var part := a'[|a| + 1..];
    assert a' == s'[..|a'|] == s[..|a'|];
    assert a' == a + "." + part;
    assert b == s[|a| + 1..] && s'[|a| + 1..] == part + "." + b';
  }

  /** The item is for the same plan: all three names agree. */
  predicate SamePlan(a: Item, b: Item)
  {
    a.Item? && b.Item? && a.namespace == b.namespace && a.generateName == b.generateName && Csv(a) == Csv(b)
  }

  function CountPlan(items: seq<Item>, item: Item): nat
  {
    if items == [] then 0
    else CountPlan(items[..|items| - 1], item) + if SamePlan(items[|items| - 1], item) then 1 else 0
  }

  ghost predicate CountedApart(recs: Plans, items: seq<Item>)
  {
    forall i | 0 <= i < |items| && items[i].Item? ::
      KeyOf(items[i]) in recs && recs[KeyOf(items[i])].count == CountPlan(items, items[i])
  }

  /** No two items' names differ just in a dot between the name and the csv. */
  ghost predicate NoDotMoved(items: seq<Item>)
  {
    forall i, j | 0 <= i < |items| && 0 <= j < |items| && items[i].Item? && items[j].Item? ::
      items[i].namespace == items[j].namespace ==>
      !DotMoved(items[i].generateName, Csv(items[i]), items[j].generateName, Csv(items[j]))
  }

  /** Every plan is counted for itself exactly when no dot moves between the names of two plans of a namespace. */
  lemma {:induction false} CountedApartExactly(recs: Plans, items: seq<Item>)
    requires Collected(recs, items) && WellFormed(items)
    requires forall i | 0 <= i < |items| && items[i].Item? :: '.' !in items[i].namespace
    ensures CountedApart(recs, items) <==> NoDotMoved(items)
  {
    hide KeyString, DotMoved, CountPlan, CountKey, Csv;
    forall i, j | 0 <= i < |items| && 0 <= j < |items|
      ensures HasKey(items[j], KeyOf(items[i])) <==>
                SamePlan(items[j], items[i])
                || (items[i].namespace == items[j].namespace
                    && (DotMoved(items[i].generateName, Csv(items[i]), items[j].generateName, Csv(items[j]))
                        || DotMoved(items[j].generateName, Csv(items[j]), items[i].generateName, Csv(items[i]))))
      ensures SamePlan(items[j], items[i]) ==>
                !DotMoved(items[i].generateName, Csv(items[i]), items[j].generateName, Csv(items[j]))
    {
      var a, b := items[i], items[j];
      KeysExactly(b.namespace, b.generateName, Csv(b), a.namespace, a.generateName, Csv(a));
      NoDotAlone(a.generateName, Csv(a));
    }
    forall i | 0 <= i < |items|
      ensures KeyOf(items[i]) in recs
      ensures recs[KeyOf(items[i])].count == CountPlan(items, items[i])
              <==> forall j | 0 <= j < |items| :: HasKey(items[j], KeyOf(items[i])) ==> SamePlan(items[j], items[i])
    {
      CountsCompare(items, items[i]);
      Occurs(items, i);
    }
  }

  lemma {:induction false} NoDotAlone(name: string, csv: string)
    ensures !DotMoved(name, csv, name, csv)
  {}

  /** A key is counted at least as often as a plan of that key, and as often exactly when it has no other plan. */
  lemma {:induction false} CountsCompare(items: seq<Item>, item: Item)
    requires item.Item?
    ensures CountPlan(items, item) <= CountKey(items, KeyOf(item))
    ensures CountPlan(items, item) == CountKey(items, KeyOf(item))
            <==> forall j | 0 <= j < |items| :: HasKey(items[j], KeyOf(item)) ==> SamePlan(items[j], item)
  {
    hide KeyString, Csv;
    if items != [] {
      CountsCompare(items[..|items| - 1], item);
    }
  }

  lemma {:induction false} Occurs(items: seq<Item>, i: nat)
    requires i < |items| && items[i].Item?
    ensures CountKey(items, KeyOf(items[i])) > 0
  {
    hide KeyOf;
    if i < |items| - 1 {
      Occurs(items[..|items| - 1], i);
    }
  }

  /** Without dots in namespaces and generated names, every plan is counted for itself. */
  lemma {:induction false} NamesWithoutDotsAreCountedApart(recs: Plans, items: seq<Item>)
    requires Collected(recs, items) && WellFormed(items)
    requires forall i | 0 <= i < |items| && items[i].Item? ::
               '.' !in items[i].namespace && '.' !in items[i].generateName
    ensures CountedApart(recs, items)
  {
    hide Csv, Collected, CountedApart;
    CountedApartExactly(recs, items);
    forall i, j | 0 <= i < |items| && 0 <= j < |items| && items[i].Item? && items[j].Item?
      ensures !DotMoved(items[i].generateName, Csv(items[i]), items[j].generateName, Csv(items[j]))
    {
      NoDotNoMove(items[i].generateName, Csv(items[i]), items[j].generateName, Csv(items[j]));
    }
  }

  lemma {:induction false} NoDotNoMove(name: string, csv: string, name': string, csv': string)
    requires '.' !in name'
    ensures !DotMoved(name, csv, name', csv')
  {
    forall part ensures name' != name + "." + part {
      assert (name + "." + part)[|name|] == '.';
    }
  }
}
