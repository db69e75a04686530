/**
 Mutual exclusion bookkeeping done at submission time.

 The exclusivity manager itself (a process-wide singleton with its own locking)
 is not part of this model; what addOperation relies on is its observable
 contract: record the submitted operation as the new holder of a category and
 hand back the previous holder, if any. The loop that calls it for each
 mutually exclusive condition and collects the previous holders into a set is
 specified here by `Register`.
 */
module Exclusivity {
  import opened OperationTypes

  /** Stand-in for the exclusivity manager: the latest holder of each category. */
  class ExclusivityManager {
    var holders: map<Category, OpId>

    constructor ()
      ensures holders == map[]
    {
      holders := map[];
    }

    /** Records `id` as the holder of `category` and returns the holder it replaces. */
    method AddOperation(id: OpId, category: Category) returns (previous: Option<OpId>)
      modifies this
      ensures holders == old(holders)[category := id]
      ensures previous == if category in old(holders) then Some(old(holders)[category]) else None
    {
      previous := if category in holders then Some(holders[category]) else None;
      holders := holders[category := id];
    }
  }

  /** The mutually exclusive conditions among `conditions`, in their order. */
  function MutuallyExclusive(conditions: seq<Condition>): (r: seq<Condition>)
    ensures forall k :: k in r <==> k in conditions && k.mutuallyExclusive
    ensures |r| <= |conditions|
  {
    if conditions == [] then []
    else
      (if conditions[0].mutuallyExclusive then [conditions[0]] else [])
      + MutuallyExclusive(conditions[1..])
  }

  /** The filter keeps every mutually exclusive condition as often as it occurs, and no other. */
  lemma {:induction false} MutuallyExclusiveCounts(conditions: seq<Condition>)
    ensures forall k :: multiset(MutuallyExclusive(conditions))[k] == if k.mutuallyExclusive then multiset(conditions)[k] else 0
  {
    if conditions != [] {
      MutuallyExclusiveCounts(conditions[1..]);
      assert conditions == [conditions[0]] + conditions[1..];
    }
  }

  /** The filter keeps order: filtering a concatenation concatenates the filtered parts. */
  lemma {:induction false} MutuallyExclusiveAppend(a: seq<Condition>, b: seq<Condition>)
    ensures MutuallyExclusive(a + b) == MutuallyExclusive(a) + MutuallyExclusive(b)
  {
    if a == [] {
      assert a + b == b;
    } else {
      assert (a + b)[0] == a[0];
      assert (a + b)[1..] == a[1..] + b;
      MutuallyExclusiveAppend(a[1..], b);
    }
  }

  /** Two mutually exclusive conditions of `conditions` name the same category. */
  predicate ExclusiveCategoryRepeats(conditions: seq<Condition>)
  {
    exists i, j :: 0 <= i < j < |conditions| && conditions[i].mutuallyExclusive && conditions[j].mutuallyExclusive
                   && conditions[i].category == conditions[j].category
  }

  /** A repeat is either the first condition's category reappearing among the exclusive rest, or a repeat further on. */
  lemma ExclusiveCategoryRepeatsStep(conditions: seq<Condition>)
    requires conditions != []
    ensures ExclusiveCategoryRepeats(conditions)
        <==> (conditions[0].mutuallyExclusive
              && exists k :: k in conditions[1..] && k.mutuallyExclusive && k.category == conditions[0].category)
             || ExclusiveCategoryRepeats(conditions[1..])
  {
    var rest := conditions[1..];
    if ExclusiveCategoryRepeats(conditions) {
      var i, j :| 0 <= i < j < |conditions| && conditions[i].mutuallyExclusive && conditions[j].mutuallyExclusive
                  && conditions[i].category == conditions[j].category;
      if i == 0 {
        assert conditions[j] in rest;
      } else {
        assert rest[i - 1] == conditions[i] && rest[j - 1] == conditions[j];
      }
    }
    if conditions[0].mutuallyExclusive
       && exists k :: k in rest && k.mutuallyExclusive && k.category == conditions[0].category {
      var k :| k in rest && k.mutuallyExclusive && k.category == conditions[0].category;
      var j :| 0 <= j < |rest| && rest[j] == k;
      assert conditions[j + 1] == k;
    }
    if ExclusiveCategoryRepeats(rest) {
      var i, j :| 0 <= i < j < |rest| && rest[i].mutuallyExclusive && rest[j].mutuallyExclusive
                  && rest[i].category == rest[j].category;
      assert conditions[i + 1] == rest[i] && conditions[j + 1] == rest[j];
    }
  }

  /**
   The filtered conditions repeat a category exactly when two mutually
   exclusive conditions of the operation share one: the filter drops no
   duplicate.
   */
  lemma {:induction false} RepeatAmongExclusive(conditions: seq<Condition>)
    ensures RepeatsCategory(MutuallyExclusive(conditions)) <==> ExclusiveCategoryRepeats(conditions)
  {
    if conditions == [] {
      assert !RepeatsCategory(MutuallyExclusive(conditions));
    } else {
      var c := conditions[0];
      var rest := conditions[1..];
      var filtered := MutuallyExclusive(rest);
      RepeatAmongExclusive(rest);
      ExclusiveCategoryRepeatsStep(conditions);
      if c.mutuallyExclusive {
        assert MutuallyExclusive(conditions) == [c] + filtered;
        RepeatsCategoryStep([c] + filtered);
        assert ([c] + filtered)[1..] == filtered;
        assert c.category in CategorySet(filtered)
           <==> exists k :: k in rest && k.mutuallyExclusive && k.category == c.category;
      } else {
        assert MutuallyExclusive(conditions) == filtered;
      }
    }
  }

  /** The categories named by `exclusive`. */
  function CategorySet(exclusive: seq<Condition>): set<Category>
  {
    set k | k in exclusive :: k.category
  }

  /** Two of the conditions name the same category. */
  predicate RepeatsCategory(exclusive: seq<Condition>)
  {
    exists i, j :: 0 <= i < j < |exclusive| && exclusive[i].category == exclusive[j].category
  }

  /**
   Registers `id` under the category of each condition of `exclusive`, in order,
   starting from registry `holders` and holder set `previous`; the result is the
   new registry and `previous` extended with every holder the registry handed back.
   */
  function Register(holders: map<Category, OpId>, previous: set<OpId>, id: OpId, exclusive: seq<Condition>)
    : (r: (map<Category, OpId>, set<OpId>))
    ensures previous <= r.1
    decreases |exclusive|
  {
    if exclusive == [] then (holders, previous)
    else
      var c := exclusive[0].category;
      Register(holders[c := id], if c in holders then previous + {holders[c]} else previous, id, exclusive[1..])
  }

  /**
   After registration every exclusive category is held by `id`, and every
   other category keeps its holder.
   */
  lemma {:induction false} RegisterRecordsHolder(holders: map<Category, OpId>, previous: set<OpId>, id: OpId, exclusive: seq<Condition>)
    ensures var r := Register(holders, previous, id, exclusive).0;
      && r.Keys == holders.Keys + CategorySet(exclusive)
      && (forall k :: k in exclusive ==> r[k.category] == id)
      && (forall c :: c in holders && c !in CategorySet(exclusive) ==> r[c] == holders[c])
    decreases |exclusive|
  {
    if exclusive != [] {
      var c := exclusive[0].category;
      var next := if c in holders then previous + {holders[c]} else previous;
      assert CategorySet(exclusive) == {c} + CategorySet(exclusive[1..]) by {
        assert forall k :: k in exclusive <==> k == exclusive[0] || k in exclusive[1..];
      }
      RegisterRecordsHolder(holders[c := id], next, id, exclusive[1..]);
    }
  }

  /** The holders `holders` records for the categories of `exclusive`. */
  function HoldersOf(holders: map<Category, OpId>, exclusive: seq<Condition>): set<OpId>
  {
    set k | k in exclusive && k.category in holders :: holders[k.category]
  }

  /**
   The previous holders are exactly the entries the registry held for the
   exclusive categories before registration, plus the registering operation
   itself when two of its conditions share a category (the second lookup then
   finds the first registration). Duplicates collapse, as the source collects
   them into a set.
   */
  lemma {:induction false} RegisterCollectsPreviousHolders(holders: map<Category, OpId>, previous: set<OpId>, id: OpId, exclusive: seq<Condition>)
    ensures Register(holders, previous, id, exclusive).1
         == previous + HoldersOf(holders, exclusive) + (if RepeatsCategory(exclusive) then {id} else {})
    decreases |exclusive|
  {
    if exclusive == [] {
      assert !RepeatsCategory(exclusive);
    } else {
      var c := exclusive[0].category;
      var rest := exclusive[1..];
      var replaced: set<OpId> := if c in holders then {holders[c]} else {};
      var next := if c in holders then previous + {holders[c]} else previous;
      assert next == previous + replaced;
      var repeatedHere: set<OpId> := if c in CategorySet(rest) then {id} else {};
      var repeatedLater: set<OpId> := if RepeatsCategory(rest) then {id} else {};
      var repeated: set<OpId> := if RepeatsCategory(exclusive) then {id} else {};
      assert Register(holders, previous, id, exclusive) == Register(holders[c := id], next, id, rest);
      RegisterCollectsPreviousHolders(holders[c := id], next, id, rest);
      RepeatsCategoryStep(exclusive);
      HoldersOfStep(holders, id, exclusive);
      assert repeated == repeatedHere + repeatedLater;
      RegroupPreviousHolders(previous, replaced, HoldersOf(holders[c := id], rest), HoldersOf(holders, exclusive),
                             repeatedHere, repeatedLater, repeated);
    }
  }

  /** The set algebra of one registration step. */
  lemma RegroupPreviousHolders(previous: set<OpId>, replaced: set<OpId>, later: set<OpId>, all: set<OpId>,
                               repeatedHere: set<OpId>, repeatedLater: set<OpId>, repeated: set<OpId>)
    requires later + replaced == all + repeatedHere && repeated == repeatedHere + repeatedLater
    ensures previous + replaced + later + repeatedLater == previous + all + repeated
  {
  }

  /** A repeat is either the first category reappearing or a repeat further on. */
  lemma RepeatsCategoryStep(exclusive: seq<Condition>)
    requires exclusive != []
    ensures RepeatsCategory(exclusive)
        <==> exclusive[0].category in CategorySet(exclusive[1..]) || RepeatsCategory(exclusive[1..])
  {
    var c := exclusive[0].category;
    var rest := exclusive[1..];
    if RepeatsCategory(exclusive) {
      var i, j :| 0 <= i < j < |exclusive| && exclusive[i].category == exclusive[j].category;
      if i == 0 {
        assert exclusive[j] in rest;
      } else {
        assert rest[i - 1].category == rest[j - 1].category;
      }
    }
    if c in CategorySet(rest) {
      var k :| k in rest && k.category == c;
      var j :| 0 <= j < |rest| && rest[j] == k;
      assert exclusive[0].category == exclusive[j + 1].category;
    }
    if RepeatsCategory(rest) {
      var i, j :| 0 <= i < j < |rest| && rest[i].category == rest[j].category;
      assert exclusive[i + 1].category == exclusive[j + 1].category;
    }
  }

  /** One registration step: what the updated registry holds for the remaining categories. */
  lemma HoldersOfStep(holders: map<Category, OpId>, id: OpId, exclusive: seq<Condition>)
    requires exclusive != []
    ensures var c := exclusive[0].category;
      HoldersOf(holders[c := id], exclusive[1..]) + (if c in holders then {holders[c]} else {})
      == HoldersOf(holders, exclusive) + (if c in CategorySet(exclusive[1..]) then {id} else {})
  {
    var c := exclusive[0].category;
    var rest := exclusive[1..];
    var h' := holders[c := id];
    forall x | x in HoldersOf(h', rest)
      ensures x in HoldersOf(holders, exclusive) || (c in CategorySet(rest) && x == id)
    {
      var k :| k in rest && k.category in h' && h'[k.category] == x;
      assert k in exclusive;
    }
    forall x | x in HoldersOf(holders, exclusive)
      ensures x in HoldersOf(h', rest) || (c in holders && x == holders[c])
    {
      var k :| k in exclusive && k.category in holders && holders[k.category] == x;
      if k.category != c {
        assert k != exclusive[0];
        assert k in rest;
      }
    }
    if c in CategorySet(rest) {
      var k :| k in rest && k.category == c;
      assert id in HoldersOf(h', rest);
    }
  }

  /**
   The registering operation finds itself among its previous holders exactly
   when two of its exclusive conditions share a category or it already held
   one of them.
   */
  lemma OperationAmongPreviousHolders(holders: map<Category, OpId>, id: OpId, exclusive: seq<Condition>)
    ensures id in Register(holders, {}, id, exclusive).1
        <==> RepeatsCategory(exclusive) || exists k :: k in exclusive && k.category in holders && holders[k.category] == id
  {
    RegisterCollectsPreviousHolders(holders, {}, id, exclusive);
  }
}
