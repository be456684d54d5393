/** The completion counter (TodoStatus.js): how many items are done, out of
    how many. */
module TodoStatus {
  import opened Todos

  /** The done items of `s`, in order (`todos.filter((todo) => todo.done)`). */
  function DoneItems(s: seq<Todo>): (r: seq<Todo>)
    ensures |r| <= |s|
    ensures forall t :: t in r <==> t in s && t.done
    ensures IsSubsequence(r, s)
    ensures forall t {:trigger multiset(r)[t]} :: multiset(r)[t] == if t.done then multiset(s)[t] else 0
  {
    if s == [] then []
    else
      var rest := DoneItems(s[1..]);
      assert s == [s[0]] + s[1..];
      assert multiset(s) == multiset{s[0]} + multiset(s[1..]);
      if s[0].done then
        assert ([s[0]] + rest)[1..] == rest;
        [s[0]] + rest
      else
        rest
  }

  /** `completedTodos`: the length of the filtered list. */
  function CompletedTodos(s: seq<Todo>): (n: nat)
    ensures n <= |s|
    ensures n == 0 <==> forall i :: 0 <= i < |s| ==> !s[i].done
  {
    var r := DoneItems(s);
    assert forall i :: 0 <= i < |s| ==> s[i] in s;
    assert r != [] ==> r[0] in r;
    |r|
  }

  /** `totalTodos`: the length of the list. */
  function TotalTodos(s: seq<Todo>): (n: nat)
    ensures n == |s|
    ensures n == 0 <==> s == []
  {
    |s|
  }

  /** The positions of `s` that hold a done item: an independent way to count. */
  function DoneIndices(s: seq<Todo>): set<int>
  {
    set i | 0 <= i < |s| && s[i].done
  }

  /** Filtering distributes over concatenation. */
  lemma {:induction false} DoneItemsAppend(a: seq<Todo>, b: seq<Todo>)
    ensures DoneItems(a + b) == DoneItems(a) + DoneItems(b)
  {
    if a != [] {
      var head := if a[0].done then [a[0]] else [];
      assert (a + b)[0] == a[0] && (a + b)[1..] == a[1..] + b;
      assert DoneItems(a + b) == head + DoneItems(a[1..] + b);
      assert DoneItems(a) == head + DoneItems(a[1..]);
      DoneItemsAppend(a[1..], b);
    } else {
      assert a + b == b;
    }
  }

  /** Positions of an extended list: the old ones, plus the new last one if done. */
  lemma DoneIndicesSnoc(s: seq<Todo>)
    requires s != []
    ensures DoneIndices(s) == DoneIndices(s[..|s| - 1]) + (if s[|s| - 1].done then {|s| - 1} else {})
    ensures |s| - 1 !in DoneIndices(s[..|s| - 1])
  {
  }

  /** completedTodos is exactly the number of positions holding a done item. */
  lemma {:induction false} CompletedCountsDonePositions(s: seq<Todo>)
    ensures CompletedTodos(s) == |DoneIndices(s)|
    decreases |s|
  {
    if s != [] {
      var n := |s| - 1;
      var init := s[..n];
      assert s == init + [s[n]];
      DoneItemsAppend(init, [s[n]]);
      assert DoneItems([s[n]]) == if s[n].done then [s[n]] else [] by {
        assert [s[n]][1..] == [];
      }
      CompletedCountsDonePositions(init);
      DoneIndicesSnoc(s);
    }
  }

  /** Counting a list with one more item in front. */
  lemma CompletedCons(t: Todo, rest: seq<Todo>)
    ensures CompletedTodos([t] + rest) == (if t.done then 1 else 0) + CompletedTodos(rest)
  {
    assert ([t] + rest)[1..] == rest;
  }

  /** The counter never shows more completed than total; both read 0 on an
      empty list. */
  lemma StatusBounds(s: seq<Todo>)
    ensures CompletedTodos(s) <= TotalTodos(s)
    ensures TotalTodos(s) == |s|
    ensures s == [] ==> CompletedTodos(s) == 0 && TotalTodos(s) == 0
  {
  }

  /** On the seed list the counter reads 1 / 5. */
  lemma SeedStatus()
    ensures CompletedTodos(Seed()) == 1 && TotalTodos(Seed()) == 5
  {
    var s := Seed();
    assert s[1..][1..][1..] == s[3..];
    assert DoneItems(s[3..]) == [];
  }

  /** Toggling an existing id, with unique ids, moves the completed count by
      exactly one in the direction of the item's new flag; total is unchanged. */
  lemma {:induction false} ToggleStatus(s: seq<Todo>, id: int, k: int)
    requires UniqueIds(s) && 0 <= k < |s| && s[k].id == id
    ensures TotalTodos(ToggleTodo(s, id)) == TotalTodos(s)
    ensures CompletedTodos(ToggleTodo(s, id)) ==
            CompletedTodos(s) + (if s[k].done then -1 else 1)
  {
    var tail := s[1..];
    assert ToggleTodo(s, id) == [ToggleOne(s[0], id)] + ToggleTodo(tail, id);
    assert s == [s[0]] + tail;
    CompletedCons(ToggleOne(s[0], id), ToggleTodo(tail, id));
    CompletedCons(s[0], tail);
    TailKeepsIds(s);
    if k == 0 {
      assert !HasId(tail, id) by {
        forall i | 0 <= i < |tail| ensures tail[i].id != id {
          assert s[0].id != s[i + 1].id;
        }
      }
      ToggleAbsent(tail, id);
    } else {
      assert tail[k - 1] == s[k];
      assert s[0].id != id;
      ToggleStatus(tail, id, k - 1);
    }
  }

  /** Adding an item raises total by one and leaves completed unchanged. */
  lemma AddStatus(s: seq<Todo>, task: string)
    ensures TotalTodos(AddTodo(s, task)) == TotalTodos(s) + 1
    ensures CompletedTodos(AddTodo(s, task)) == CompletedTodos(s)
  {
    var r := AddTodo(s, task);
    assert r == s + [r[|s|]];
    DoneItemsAppend(s, [r[|s|]]);
  }

  /** Deleting an existing id, with unique ids, lowers total by one and
      completed by one exactly when the deleted item was done. */
  lemma {:induction false} DeleteStatus(s: seq<Todo>, id: int, k: int)
    requires UniqueIds(s) && 0 <= k < |s| && s[k].id == id
    ensures TotalTodos(DeleteTodo(s, id)) == TotalTodos(s) - 1
    ensures CompletedTodos(DeleteTodo(s, id)) ==
            CompletedTodos(s) - (if s[k].done then 1 else 0)
  {
    var tail := s[1..];
    DeleteRemovesOne(s, id);
    assert s == [s[0]] + tail;
    CompletedCons(s[0], tail);
    TailKeepsIds(s);
    if k == 0 {
      assert !HasId(tail, id) by {
        forall i | 0 <= i < |tail| ensures tail[i].id != id {
          assert s[0].id != s[i + 1].id;
        }
      }
      DeleteAbsent(tail, id);
      assert DeleteTodo(s, id) == tail;
    } else {
      assert tail[k - 1] == s[k];
      assert s[0].id != id;
      assert DeleteTodo(s, id) == [s[0]] + DeleteTodo(tail, id);
      CompletedCons(s[0], DeleteTodo(tail, id));
      DeleteStatus(tail, id, k - 1);
    }
  }
}
