/**
 Concrete runs of the combobox over small option sets: selecting, filtering
 and moving with the keyboard, and the quirks of the code as written.
 */
module Scenarios {
  import opened Text
  import opened Options
  import opened Navigation
  import opened Combobox


  function Mounted(options: seq<Option>): State
    requires options != []
  {
    Mount(options).value
  }

  /** A query of lower-case letters is its own normal form. */
  lemma NormalizeLowerWord(q: string)
    requires q != [] && forall i :: 0 <= i < |q| ==> 'a' <= q[i] <= 'z'
    ensures Normalize(q) == q
  {
    assert ToLower(q) == q;
    TrimIdentity(q);
  }

  /** Mounting Alpha and Beta sizes the control to "Alpha": 5 characters
      of 8.5 pixels, 85 half-pixels. */
  lemma MountAlphaBeta()
    ensures Mounted([Option("a", "Alpha"), Option("b", "Beta")]) == Initial.(absoluteOptions := [Option("a", "Alpha"), Option("b", "Beta")], dynamicWidth := 85)
  {
    assert ReduceLongest([Option("a", "Alpha"), Option("b", "Beta")], 0, 1) == 0;
  }

  /** A capitalised word normalizes to its lower-case form. */
  lemma NormalizeCapitalized(s: string, t: string)
    requires ToLower(s) == t && t != [] && forall i :: 0 <= i < |t| ==> 'a' <= t[i] <= 'z'
    ensures Normalize(s) == t
  {
    NormalizeLowerWord(t);
  }

  /** "Alpha" lower-cases to "alpha", which starts with "al". */
  lemma AlphaMatchesAl()
    ensures Matches(Option("a", "Alpha"), "al")
  {
    NormalizeLowerWord("al");
    NormalizeCapitalized("Alpha", "alpha");
    assert OccursAt("alpha", "al", 0);
  }

  /** "Beta" lower-cases to "beta", which holds no 'l', so "al" occurs
      nowhere in it. */
  lemma BetaMissesAl()
    ensures !Matches(Option("b", "Beta"), "al")
  {
    NormalizeLowerWord("al");
    NormalizeCapitalized("Beta", "beta");
    MissingCharMisses("beta", "al", 1);
  }

  /** The query "al" keeps Alpha and drops Beta. */
  lemma FilterAlpha()
    ensures Filter([Option("a", "Alpha"), Option("b", "Beta")], "al") == [Option("a", "Alpha")]
  {
    AlphaMatchesAl();
    BetaMissesAl();
    var opts := [Option("a", "Alpha"), Option("b", "Beta")];
    assert opts[1..] == [Option("b", "Beta")];
    assert opts[1..][1..] == [];
  }

  /** Opening the list and clicking Beta selects it and closes the list;
      a click outside afterwards keeps its label in the input. */
  lemma ClickingSelects()
    ensures var s := Perform(Perform(Mounted([Option("a", "Alpha"), Option("b", "Beta")]), ClickControl), ClickRow(1));
            && s.selectedOption == "b" && s.inputValue == "Beta"
            && !s.anchorEl && s.filteredSuggestions == []
            && Perform(s, ClickOutside).inputValue == "Beta"
  {
    MountAlphaBeta();
  }

  /** Arrow-down from the last of three rows wraps to the first. */
  lemma ArrowDownWrapsToTop()
    ensures var s := Mounted([Option("a", "Alpha"), Option("b", "Beta"), Option("c", "Gamma")]).(focusedIndex := 2);
            Perform(s, Press(ArrowDown)).focusedIndex == 0
  {
    assert ReduceLongest([Option("a", "Alpha"), Option("b", "Beta"), Option("c", "Gamma")], 0, 1) == 2;
  }

  /** Over Alpha and Beta, typing "xxxxxx" (longer than either label) and
      then pressing arrow-down makes the code's highlighted index NaN. */
  lemma ArrowOnEmptyListExample()
    ensures var s := Perform(Perform(Mounted([Option("a", "Alpha"), Option("b", "Beta")]), Press("x")), Type("xxxxxx"));
            KeyDownIndexAsWritten(s, ArrowDown) == NaN
  {
    MountAlphaBeta();
    var s := Mounted([Option("a", "Alpha"), Option("b", "Beta")]);
    NormalizeLowerWord("xxxxxx");
    forall o | o in s.absoluteOptions
      ensures !Matches(o, "xxxxxx")
    {
      LongQueryMisses(o, "xxxxxx");
    }
    assert "xxxxxx"[..1] == "x";
    ArrowOnEmptyListIsNaN(s, "xxxxxx");
  }
}
