/**
 * Concrete runs: what the user sees after typing a few todos, completing one
 * and clearing the completed ones.
 */
module Scenario {
  import opened Text
  import opened Seqs
  import opened Todo

  /** `add("  buy   milk  ")` stores "buy milk". */
  lemma SanitizeExample()
    ensures SanitizeText("  buy   milk  ") == "buy milk"
  {
    assert "  buy   milk  " == "  " + "buy" + "   " + "milk" + "  ";
    assert "buy" + " " + "milk" == "buy milk";
    SanitizeBuyMilk("  buy   milk  ");
  }

  /** The same text, split into its blank and non-blank pieces. */
  lemma SanitizeBuyMilk(s: string)
    requires s == "  " + "buy" + "   " + "milk" + "  "
    ensures SanitizeText(s) == "buy" + " " + "milk"
  {
    SanitizeTwoWords("  ", "buy", "   ", "milk", "  ");
  }

  /** `add("")` and `add("   ")` store nothing. */
  lemma SanitizeBlankExample()
    ensures SanitizeText("") == "" && SanitizeText("   ") == ""
  {
    assert AllWhitespace("   ");
  }

  /** Adding two clean texts to the empty list puts the second in front,
      both open. */
  lemma AddTwoToEmpty(t1: string, t2: string, e1: Env, e2: Env)
    requires t1 != [] && IsSanitized(t1) && t2 != [] && IsSanitized(t2)
    ensures var s2 := Reduce(Reduce(InitialState, Add(t1), e1), Add(t2), e2);
      && s2.items == [Item(e2.freshId, t2, false, e2.now), Item(e1.freshId, t1, false, e1.now)]
      && ComputeStats(s2.items) == Stats(2, 0, 2)
  {
    var first, second := Item(e1.freshId, t1, false, e1.now), Item(e2.freshId, t2, false, e2.now);
    AddSanitizedText([], t1, e1);
    AddSanitizedText([first], t2, e2);
    assert [second] + [first] == [second, first];
    FilterConcat([second], [first], IsDone);
  }

  /** Start empty, add "Buy milk" and then "Walk dog": the newer item is in
      front and nothing is completed. */
  lemma AddTwiceScenario()
    ensures var s2 := Reduce(Reduce(InitialState, Add("Buy milk"), Env("a", 1)), Add("Walk dog"), Env("b", 2));
      && s2.items == [Item("b", "Walk dog", false, 2), Item("a", "Buy milk", false, 1)]
      && ComputeStats(s2.items) == Stats(2, 0, 2)
  {
    assert IsSanitized("Buy milk");
    assert IsSanitized("Walk dog");
    AddTwoToEmpty("Buy milk", "Walk dog", Env("a", 1), Env("b", 2));
  }

  /** Completing the older of two open items moves one item from remaining
      to completed; clearing completed items then leaves only the newer. */
  lemma ToggleOlderThenClear(newer: Item, older: Item, e3: Env, e4: Env)
    requires newer.id != older.id && !newer.completed && !older.completed
    ensures var s3 := Reduce(State([newer, older]), Toggle(older.id), e3);
      var s4 := Reduce(s3, ClearCompleted, e4);
      && s3.items == [newer, older.(completed := true)]
      && ComputeStats(s3.items) == Stats(2, 1, 1)
      && s4.items == [newer]
      && ComputeStats(s4.items) == Stats(1, 0, 1)
  {
    var done := older.(completed := true);
    var r := ToggleItems([newer, older], older.id);
    assert r[0] == newer && r[1] == done;
    assert r == [newer, done];
    assert [newer, done] == [newer] + [done];
    FilterConcat([newer], [done], IsDone);
    FilterConcat([newer], [done], IsOpen);
  }

  /** Completing "Buy milk" moves one item from remaining to completed;
      clearing completed items then leaves only "Walk dog". */
  lemma ToggleClearScenario()
    ensures var s2 := State([Item("b", "Walk dog", false, 2), Item("a", "Buy milk", false, 1)]);
      var s3 := Reduce(s2, Toggle("a"), Env("c", 3));
      var s4 := Reduce(s3, ClearCompleted, Env("d", 4));
      && s3.items == [Item("b", "Walk dog", false, 2), Item("a", "Buy milk", true, 1)]
      && ComputeStats(s3.items) == Stats(2, 1, 1)
      && s4.items == [Item("b", "Walk dog", false, 2)]
      && ComputeStats(s4.items) == Stats(1, 0, 1)
  {
    ToggleOlderThenClear(Item("b", "Walk dog", false, 2), Item("a", "Buy milk", false, 1), Env("c", 3), Env("d", 4));
  }
}
