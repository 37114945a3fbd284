/** A short session on the page, worked through the model: two additions,
    a blank submission, a drag that swaps the two tasks, and a click that
    completes one of them. Ids "1" and "2" stand for the two timestamps. */
module Session {
  import opened Wrappers
  import opened Sequences
  import opened JsTrim
  import opened OrderedMaps
  import opened TodoStore
  import opened DragReorder

  lemma TrimWord(s: string)
    requires s != [] && !IsWhitespace(s[0]) && !IsWhitespace(s[|s| - 1])
    ensures Trim(s) == s
  {
  }

  lemma AddFirst()
    ensures AddTask([], "buy milk", "1") == [("1", Task("buy milk", false))]
  {
    TrimWord("buy milk");
    assert Keys<Id, Task>([]) == [];
  }

  lemma AddSecond()
    ensures AddTask([("1", Task("buy milk", false))], "walk dog", "2")
              == [("1", Task("buy milk", false)), ("2", Task("walk dog", false))]
  {
    TrimWord("walk dog");
    assert "1" != "2";
    assert Keys([("1", Task("buy milk", false))]) == ["1"];
  }

  lemma AddBlank()
    ensures AddTask([("1", Task("buy milk", false))], "   ", "2") == [("1", Task("buy milk", false))]
  {
  }

  /** Dragging "2" into the upper half of "1" puts it in front. */
  lemma DragAbove()
    ensures DragOverMove(["1", "2"], "2", Some("1"), false) == ["2", "1"]
  {
  }

  lemma SwapByDrag()
    ensures Keys([("1", Task("buy milk", false)), ("2", Task("walk dog", false))]) == ["1", "2"]
    ensures Rebuild([("1", Task("buy milk", false)), ("2", Task("walk dog", false))], ["2", "1"])
              == [("2", Task("walk dog", false)), ("1", Task("buy milk", false))]
  {
  }

  lemma CompleteOne()
    ensures Keys([("2", Task("walk dog", false)), ("1", Task("buy milk", false))]) == ["2", "1"]
    ensures Valid([("2", Task("walk dog", false)), ("1", Task("buy milk", false))])
    ensures ToggleComplete([("2", Task("walk dog", false)), ("1", Task("buy milk", false))], "1")
              == [("2", Task("walk dog", false)), ("1", Task("buy milk", true))]
  {
  }

  /** A stored list that repeats an id loads as `new Map` loads it: the id
      stays where it first occurs and holds the task given last. */
  lemma LoadRepeatedId()
    ensures Load(Some(RepeatedList())) == [("1", Task("buy bread", true)), ("2", Task("walk dog", false))]
  {
    var r := Load(Some(RepeatedList()));
    var expected := [("1", Task("buy bread", true)), ("2", Task("walk dog", false))];
    RepeatedListFacts();
    assert Keys(r) == Keys(expected);
    forall k ensures Get(r, k) == Get(expected, k) {
      assert Get(r, k) == LastValue(RepeatedList(), k);
    }
    Extensionality(r, expected);
  }

  function RepeatedList(): Tasks {
    [("1", Task("buy milk", false)), ("2", Task("walk dog", false)), ("1", Task("buy bread", true))]
  }

  lemma RepeatedListFacts()
    ensures FirstOccurrences(Keys(RepeatedList())) == ["1", "2"]
    ensures Keys([("1", Task("buy bread", true)), ("2", Task("walk dog", false))]) == ["1", "2"]
    ensures forall k :: LastValue(RepeatedList(), k) ==
              Get([("1", Task("buy bread", true)), ("2", Task("walk dog", false))], k)
  {
    assert "1" != "2";
    assert Keys(RepeatedList()) == ["1", "2", "1"];
    assert FirstOccurrences(["1", "2"]) == ["1", "2"];
    var es := RepeatedList();
    assert es[..2] == [("1", Task("buy milk", false)), ("2", Task("walk dog", false))];
    assert es[..2][..1] == [("1", Task("buy milk", false))];
    forall k ensures LastValue(es, k) ==
                     Get([("1", Task("buy bread", true)), ("2", Task("walk dog", false))], k) {
      if k != "1" && k != "2" {
        assert LastValue(es[..2][..1][..0], k) == None;
      }
    }
  }
}
