/** The todo collection of the app (App.js): the seed list and the three
    transitions addTodo, toggleTodo and deleteTodo, each of which builds a
    whole new list from the current one. */
module Todos {

  /** One record of the list. */
  datatype Todo = Todo(id: int, task: string, done: bool)

  /** The five items the app starts with. */
  function Seed(): (r: seq<Todo>)
    ensures |r| == 5
    ensures forall i :: 0 <= i < |r| ==> r[i].id == i + 1
    ensures forall i :: 0 <= i < |r| ==> (r[i].done <==> i == 2)
  {
    [ Todo(1, "faire  A", false),
      Todo(2, "faire B", false),
      Todo(3, "faire quelque chose C", true),
      Todo(4, "faire quelque chose D", false),
      Todo(5, "faire quelque chose E", false) ]
  }

  /** Some item of `s` carries the id `id`. */
  predicate HasId(s: seq<Todo>, id: int)
  {
    exists i :: 0 <= i < |s| && s[i].id == id
  }

  /** No two items of `s` share an id. */
  predicate UniqueIds(s: seq<Todo>)
  {
    forall i, j :: 0 <= i < j < |s| ==> s[i].id != s[j].id
  }

  /** Ids grow strictly along the list, i.e. in the order items were added. */
  predicate IdsIncreasing(s: seq<Todo>)
  {
    forall i, j :: 0 <= i < j < |s| ==> s[i].id < s[j].id
  }

  /** `a` is `b` with some items left out, the rest in their original order. */
  predicate IsSubsequence(a: seq<Todo>, b: seq<Todo>)
    decreases |b|
  {
    if b == [] then a == []
    else (a != [] && a[0] == b[0] && IsSubsequence(a[1..], b[1..])) || IsSubsequence(a, b[1..])
  }

  /** The largest id of a non-empty list (`Math.max(...todos.map(t => t.id))`). */
  function MaxId(s: seq<Todo>): (m: int)
    requires |s| > 0
    ensures forall i :: 0 <= i < |s| ==> s[i].id <= m
    ensures HasId(s, m)
  {
    if |s| == 1 then s[0].id
    else
      var rest := MaxId(s[1..]);
      if s[0].id >= rest then s[0].id else rest
  }

  /** The id a new item gets: one more than the largest id, or 1 when the
      list is empty (the app itself computes `-Infinity` there). */
  function NextId(s: seq<Todo>): (n: int)
    ensures forall i :: 0 <= i < |s| ==> s[i].id < n
    ensures !HasId(s, n)
    ensures s == [] ==> n == 1
    ensures s != [] ==> HasId(s, n - 1)
  {
    if s == [] then 1 else MaxId(s) + 1
  }

  /** addTodo: the old list followed by one new, not yet done item. */
  function AddTodo(s: seq<Todo>, task: string): (r: seq<Todo>)
    ensures |r| == |s| + 1
    ensures r[..|s|] == s
    ensures r[|s|].task == task && !r[|s|].done
    ensures r[|s|].id == NextId(s)
    ensures forall i :: 0 <= i < |s| ==> s[i].id < r[|s|].id
    ensures UniqueIds(s) ==> UniqueIds(r)
    ensures IdsIncreasing(s) ==> IdsIncreasing(r)
  {
    s + [Todo(NextId(s), task, false)]
  }

  /** One item as toggleTodo's `map` callback leaves it. */
  function ToggleOne(t: Todo, id: int): (r: Todo)
    ensures r.id == t.id && r.task == t.task
    ensures r.done == (if t.id == id then !t.done else t.done)
  {
    if t.id == id then t.(done := !t.done) else t
  }

  /** toggleTodo: flips `done` on every item whose id is `id`. */
  function ToggleTodo(s: seq<Todo>, id: int): (r: seq<Todo>)
    ensures |r| == |s|
    ensures forall i :: 0 <= i < |s| ==>
              r[i].id == s[i].id && r[i].task == s[i].task &&
              r[i].done == (if s[i].id == id then !s[i].done else s[i].done)
  {
    if s == [] then [] else [ToggleOne(s[0], id)] + ToggleTodo(s[1..], id)
  }

  /** deleteTodo: keeps exactly the items whose id is not `id`. */
  function DeleteTodo(s: seq<Todo>, id: int): (r: seq<Todo>)
    ensures |r| <= |s|
    ensures forall t :: t in r <==> t in s && t.id != id
    ensures !HasId(r, id)
  {
    if s == [] then []
    else if s[0].id == id then DeleteTodo(s[1..], id)
    else [s[0]] + DeleteTodo(s[1..], id)
  }

  /** The number of items of `s` whose id is `id`. */
  function CountId(s: seq<Todo>, id: int): (n: nat)
    ensures n <= |s|
    ensures n == 0 <==> !HasId(s, id)
  {
    if s == [] then 0
    else (if s[0].id == id then 1 else 0) + CountId(s[1..], id)
  }

  lemma {:induction false} SeedIsWellFormed()
    ensures |Seed()| == 5
    ensures forall i :: 0 <= i < 5 ==> Seed()[i].id == i + 1
    ensures IdsIncreasing(Seed()) && UniqueIds(Seed())
  {
  }

  /** With the fallback id, adding to an emptied list twice still gives two
      distinct ids, 1 then 2. */
  lemma AddsAfterEmptyingAreDistinct(a: string, b: string)
    ensures var r := AddTodo(AddTodo([], a), b);
            r[0].id == 1 && r[1].id == 2 && UniqueIds(r)
  {
  }

  /** Toggling the same id twice gives back the original list. */
  lemma {:induction false} ToggleTwice(s: seq<Todo>, id: int)
    ensures ToggleTodo(ToggleTodo(s, id), id) == s
  {
    var r := ToggleTodo(ToggleTodo(s, id), id);
    assert |r| == |s|;
    forall i | 0 <= i < |s| ensures r[i] == s[i] { }
  }

  /** Toggling an id no item has changes nothing. */
  lemma {:induction false} ToggleAbsent(s: seq<Todo>, id: int)
    requires !HasId(s, id)
    ensures ToggleTodo(s, id) == s
  {
    var r := ToggleTodo(s, id);
    forall i | 0 <= i < |s| ensures r[i] == s[i] {
      assert s[i].id != id;
    }
  }

  /** Toggling keeps the ids where they were, hence uniqueness and order. */
  lemma {:induction false} TogglePreservesIds(s: seq<Todo>, id: int)
    ensures UniqueIds(s) ==> UniqueIds(ToggleTodo(s, id))
    ensures IdsIncreasing(s) ==> IdsIncreasing(ToggleTodo(s, id))
    ensures forall x :: HasId(ToggleTodo(s, id), x) <==> HasId(s, x)
  {
    var r := ToggleTodo(s, id);
    forall x ensures HasId(r, x) <==> HasId(s, x) {
      if HasId(r, x) {
        var i :| 0 <= i < |r| && r[i].id == x;
        assert s[i].id == x;
      }
      if HasId(s, x) {
        var i :| 0 <= i < |s| && s[i].id == x;
        assert r[i].id == x;
      }
    }
  }

  /** Deleting an id no item has changes nothing. */
  lemma {:induction false} DeleteAbsent(s: seq<Todo>, id: int)
    requires !HasId(s, id)
    ensures DeleteTodo(s, id) == s
  {
    if s != [] {
      assert s[0].id != id;
      DeleteAbsent(s[1..], id);
    }
  }

  /** deleteTodo drops as many items as carry the id. */
  lemma {:induction false} DeleteCount(s: seq<Todo>, id: int)
    ensures |DeleteTodo(s, id)| == |s| - CountId(s, id)
  {
    if s != [] {
      DeleteCount(s[1..], id);
    }
  }

  /** The surviving items keep their relative order. */
  lemma {:induction false} DeleteKeepsOrder(s: seq<Todo>, id: int)
    ensures IsSubsequence(DeleteTodo(s, id), s)
  {
    if s != [] {
      DeleteKeepsOrder(s[1..], id);
      if s[0].id != id {
        assert ([s[0]] + DeleteTodo(s[1..], id))[1..] == DeleteTodo(s[1..], id);
      }
    }
  }

  /** With unique ids, an id that is present occurs exactly once. */
  lemma {:induction false} UniquePresentCountsOnce(s: seq<Todo>, id: int)
    requires UniqueIds(s) && HasId(s, id)
    ensures CountId(s, id) == 1
  {
    TailKeepsIds(s);
    if s[0].id != id {
      var i :| 0 <= i < |s| && s[i].id == id;
      assert s[1..][i - 1].id == id;
      UniquePresentCountsOnce(s[1..], id);
    }
  }

  /** With unique ids and the id present, deleteTodo removes exactly one item. */
  lemma DeleteRemovesOne(s: seq<Todo>, id: int)
    requires UniqueIds(s) && HasId(s, id)
    ensures |DeleteTodo(s, id)| == |s| - 1
  {
    DeleteCount(s, id);
    UniquePresentCountsOnce(s, id);
  }

  /** Dropping the first item keeps ids unique and increasing. */
  lemma TailKeepsIds(s: seq<Todo>)
    requires s != []
    ensures UniqueIds(s) ==> UniqueIds(s[1..])
    ensures IdsIncreasing(s) ==> IdsIncreasing(s[1..])
  {
  }

  /** Every item deleteTodo keeps is an item of the original list. */
  lemma DeleteKeepsItems(s: seq<Todo>, id: int, k: int)
    requires 0 <= k < |DeleteTodo(s, id)|
    ensures exists m :: 0 <= m < |s| && s[m] == DeleteTodo(s, id)[k]
  {
    assert DeleteTodo(s, id)[k] in s;
  }

  /** deleteTodo keeps ids unique. */
  lemma {:induction false} DeletePreservesUnique(s: seq<Todo>, id: int)
    requires UniqueIds(s)
    ensures UniqueIds(DeleteTodo(s, id))
  {
    if s != [] {
      TailKeepsIds(s);
      DeletePreservesUnique(s[1..], id);
      if s[0].id != id {
        var rest := DeleteTodo(s[1..], id);
        forall k | 0 <= k < |rest| ensures rest[k].id != s[0].id {
          DeleteKeepsItems(s[1..], id, k);
          var m :| 0 <= m < |s[1..]| && s[1..][m] == rest[k];
          assert s[m + 1] == rest[k];
        }
        HeadExtendsUnique(s[0], rest);
      }
    }
  }

  /** deleteTodo keeps ids increasing. */
  lemma {:induction false} DeletePreservesIncreasing(s: seq<Todo>, id: int)
    requires IdsIncreasing(s)
    ensures IdsIncreasing(DeleteTodo(s, id))
  {
    if s != [] {
      TailKeepsIds(s);
      DeletePreservesIncreasing(s[1..], id);
      if s[0].id != id {
        var rest := DeleteTodo(s[1..], id);
        forall k | 0 <= k < |rest| ensures s[0].id < rest[k].id {
          DeleteKeepsItems(s[1..], id, k);
          var m :| 0 <= m < |s[1..]| && s[1..][m] == rest[k];
          assert s[m + 1] == rest[k];
        }
        HeadExtendsIncreasing(s[0], rest);
      }
    }
  }

  lemma HeadExtendsUnique(t: Todo, rest: seq<Todo>)
    requires UniqueIds(rest)
    requires forall k :: 0 <= k < |rest| ==> rest[k].id != t.id
    ensures UniqueIds([t] + rest)
  {
    var r := [t] + rest;
    forall i, j | 0 <= i < j < |r| ensures r[i].id != r[j].id {
      assert r[j] == rest[j - 1];
      if i > 0 { assert r[i] == rest[i - 1]; }
    }
  }

  lemma HeadExtendsIncreasing(t: Todo, rest: seq<Todo>)
    requires IdsIncreasing(rest)
    requires forall k :: 0 <= k < |rest| ==> t.id < rest[k].id
    ensures IdsIncreasing([t] + rest)
  {
    var r := [t] + rest;
    forall i, j | 0 <= i < j < |r| ensures r[i].id < r[j].id {
      assert r[j] == rest[j - 1];
      if i > 0 { assert r[i] == rest[i - 1]; }
    }
  }
}
