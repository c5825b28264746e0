/**
 * The language selection: an ordered list of languages keyed by identifier,
 * toggled by tapping a card and capped at four entries.
 */
module Selection {
  import opened Wrappers
  import opened Seqs
  import opened Catalog
  import opened Effects

  /** The identifiers present in a selection. */
  function Ids(sel: seq<Language>): set<int> {
    set l | l in sel :: l.id
  }

  /** No identifier appears twice. */
  predicate UniqueIds(sel: seq<Language>) {
    forall i, j :: 0 <= i < j < |sel| ==> sel[i].id != sel[j].id
  }

  /** `sel.find(lang => lang.id === id)`: the first entry with that identifier, if any. */
  function FindById(sel: seq<Language>, id: int): (r: Option<Language>)
    ensures r.Some? <==> id in Ids(sel)
    ensures r.Some? ==> r.value.id == id && r.value in sel
    ensures r.Some? ==> exists i :: 0 <= i < |sel| && sel[i] == r.value && forall j :: 0 <= j < i ==> sel[j].id != id
    decreases |sel|
  {
    if |sel| == 0 then None
    else if sel[0].id == id then Some(sel[0])
    else
      var r := FindById(sel[1..], id);
      assert r.Some? ==> exists i :: 0 <= i < |sel| && sel[i] == r.value && forall j :: 0 <= j < i ==> sel[j].id != id by {
        if r.Some? {
          var i :| 0 <= i < |sel[1..]| && sel[1..][i] == r.value && forall j :: 0 <= j < i ==> sel[1..][j].id != id;
          assert sel[i + 1] == r.value;
        }
      }
      assert id in Ids(sel) ==> id in Ids(sel[1..]) by {
        assert sel[0] in sel;
      }
      r
  }

  /** `sel.filter(lang => lang.id !== id)`: every entry with that identifier dropped. */
  function RemoveId(sel: seq<Language>, id: int): (r: seq<Language>)
    ensures forall i :: 0 <= i < |r| ==> r[i].id != id
    ensures id in Ids(sel) ==> |r| < |sel|
    ensures id !in Ids(sel) ==> r == sel
    decreases |sel|
  {
    if |sel| == 0 then []
    else
      var rest := RemoveId(sel[1..], id);
      assert id in Ids(sel) <==> sel[0].id == id || id in Ids(sel[1..]) by {
        assert sel[0] in sel;
      }
      if sel[0].id != id then [sel[0]] + rest else rest
  }

  /** Removal keeps exactly the entries carrying another identifier. */
  lemma {:induction false} RemoveIdMembers(sel: seq<Language>, id: int)
    ensures forall l :: l in RemoveId(sel, id) <==> l in sel && l.id != id
    decreases |sel|
  {
    if |sel| > 0 {
      RemoveIdMembers(sel[1..], id);
      assert sel == [sel[0]] + sel[1..];
    }
  }

  /** Removal keeps the remaining entries in their relative order. */
  lemma {:induction false} RemoveIdSubsequence(sel: seq<Language>, id: int)
    ensures IsSubsequence(RemoveId(sel, id), sel)
    decreases |sel|
  {
    if |sel| > 0 {
      RemoveIdSubsequence(sel[1..], id);
    }
  }

  /** Removal takes exactly the one identifier out of the selection's identifiers. */
  lemma {:induction false} RemoveIdIds(sel: seq<Language>, id: int)
    ensures Ids(RemoveId(sel, id)) == Ids(sel) - {id}
  {
    RemoveIdMembers(sel, id);
  }

  /** Removal keeps identifiers unique. */
  lemma {:induction false} RemoveIdUnique(sel: seq<Language>, id: int)
    requires UniqueIds(sel)
    ensures UniqueIds(RemoveId(sel, id))
    decreases |sel|
  {
    if |sel| > 0 {
      var rest := RemoveId(sel[1..], id);
      assert UniqueIds(sel[1..]);
      RemoveIdUnique(sel[1..], id);
      RemoveIdMembers(sel[1..], id);
      if sel[0].id != id {
        var r := [sel[0]] + rest;
        forall j | 0 < j < |r|
          ensures r[0].id != r[j].id
        {
          assert r[j] in sel[1..];
          var k :| 0 <= k < |sel[1..]| && sel[1..][k] == r[j];
          assert sel[k + 1] == r[j];
        }
      }
    }
  }

  /** The new selection and the visible outcome of one handler call. */
  datatype Step = Step(selection: seq<Language>, outcome: Outcome)

  /**
   * `handleLanguageSelect`: below the cap, tapping a language removes it when
   * its identifier is selected and appends it otherwise; at or over the cap the
   * selection is kept and the limit alert is raised, whether or not the
   * language is already selected.
   */
  function Select(sel: seq<Language>, lang: Language): (r: Step)
    ensures |sel| >= MaxSelected ==> r.selection == sel && r.outcome == Alert(LimitReached)
    ensures |sel| < MaxSelected ==> r.outcome == NoEffect
    ensures |sel| < MaxSelected && lang.id in Ids(sel) ==> Ids(r.selection) == Ids(sel) - {lang.id}
    ensures |sel| < MaxSelected && lang.id !in Ids(sel) ==> Ids(r.selection) == Ids(sel) + {lang.id}
    ensures |sel| <= MaxSelected ==> |r.selection| <= MaxSelected
    ensures UniqueIds(sel) ==> UniqueIds(r.selection)
    ensures IsSubsequence(r.selection, sel) || IsSubsequence(sel, r.selection)
    ensures forall l :: l in r.selection ==> l in sel || l == lang
  {
    if |sel| < MaxSelected then
      if FindById(sel, lang.id).Some? then
        RemoveIdMembers(sel, lang.id);
        RemoveIdIds(sel, lang.id);
        RemoveIdSubsequence(sel, lang.id);
        assert UniqueIds(sel) ==> UniqueIds(RemoveId(sel, lang.id)) by {
          if UniqueIds(sel) {
            RemoveIdUnique(sel, lang.id);
          }
        }
        Step(RemoveId(sel, lang.id), NoEffect)
      else
        var r := sel + [lang];
        assert Ids(r) == Ids(sel) + {lang.id};
        assert UniqueIds(sel) ==> UniqueIds(r) by {
          if UniqueIds(sel) {
            forall i | 0 <= i < |sel|
              ensures r[i].id != lang.id
            {
              assert sel[i] in sel;
            }
          }
        }
        SubsequenceReflexive(sel);
        SubsequenceOfPrefix(sel, sel, lang);
        Step(r, NoEffect)
    else
      SubsequenceReflexive(sel);
      Step(sel, Alert(LimitReached))
  }

  /** A card shows its check mark when its identifier is in the selection. */
  function IsSelected(sel: seq<Language>, lang: Language): (b: bool)
    ensures b <==> exists l :: l in sel && l.id == lang.id
  {
    FindById(sel, lang.id).Some?
  }

  /** Removing an identifier from a concatenation removes it from each part. */
  lemma {:induction false} RemoveIdAppend(a: seq<Language>, b: seq<Language>, id: int)
    ensures RemoveId(a + b, id) == RemoveId(a, id) + RemoveId(b, id)
    decreases |a|
  {
    if |a| == 0 {
      assert a + b == b;
    } else {
      var ab := a + b;
      assert ab[0] == a[0];
      assert ab[1..] == a[1..] + b;
      RemoveIdAppend(a[1..], b, id);
      if a[0].id != id {
        calc {
          RemoveId(ab, id);
          [a[0]] + RemoveId(a[1..] + b, id);
          [a[0]] + (RemoveId(a[1..], id) + RemoveId(b, id));
          ([a[0]] + RemoveId(a[1..], id)) + RemoveId(b, id);
        }
      } else {
        assert RemoveId(ab, id) == RemoveId(a[1..] + b, id);
      }
    }
  }

  /** Below the cap, tapping an unselected language appends it after the kept entries. */
  lemma SelectAppendsWhenAbsent(sel: seq<Language>, lang: Language)
    requires |sel| < MaxSelected && lang.id !in Ids(sel)
    ensures |Select(sel, lang).selection| == |sel| + 1
    ensures Select(sel, lang).selection[..|sel|] == sel
    ensures Select(sel, lang).selection[|sel|] == lang
  {
  }

  /** Below the cap, tapping a selected language drops every entry with its identifier and nothing else. */
  lemma SelectRemovesWhenPresent(sel: seq<Language>, lang: Language)
    requires |sel| < MaxSelected && lang.id in Ids(sel)
    ensures forall l :: l in Select(sel, lang).selection <==> l in sel && l.id != lang.id
    ensures IsSubsequence(Select(sel, lang).selection, sel)
    ensures |Select(sel, lang).selection| < |sel|
  {
    RemoveIdMembers(sel, lang.id);
    RemoveIdSubsequence(sel, lang.id);
  }

  /** With four languages selected, even a selected language cannot be deselected. */
  lemma CannotDeselectAtCap(sel: seq<Language>, lang: Language)
    requires |sel| == MaxSelected && lang.id in Ids(sel)
    ensures Select(sel, lang) == Step(sel, Alert(LimitReached))
    ensures lang.id in Ids(Select(sel, lang).selection)
  {
  }

  /** From at most two entries, tapping an unselected language twice restores the selection. */
  lemma {:induction false} ToggleTwiceRestores(sel: seq<Language>, lang: Language)
    requires |sel| <= MaxSelected - 2 && lang.id !in Ids(sel)
    ensures Select(Select(sel, lang).selection, lang) == Step(sel, NoEffect)
  {
    var once := Select(sel, lang).selection;
    assert once == sel + [lang];
    assert lang.id in Ids(once);
    RemoveIdAppend(sel, [lang], lang.id);
    assert RemoveId([lang], lang.id) == [];
  }

  /** From three entries, the first tap reaches the cap and the second is refused. */
  lemma ToggleTwiceFromThree(sel: seq<Language>, lang: Language)
    requires |sel| == MaxSelected - 1 && lang.id !in Ids(sel)
    ensures Select(sel, lang) == Step(sel + [lang], NoEffect)
    ensures Select(Select(sel, lang).selection, lang) == Step(sel + [lang], Alert(LimitReached))
  {
  }

  /**
   * Tapping a selected language twice restores the identifiers, but the
   * language comes back at the end of the selection.
   */
  lemma {:induction false} ToggleTwiceMovesToEnd(sel: seq<Language>, lang: Language)
    requires |sel| < MaxSelected && lang.id in Ids(sel)
    ensures Select(Select(sel, lang).selection, lang) == Step(RemoveId(sel, lang.id) + [lang], NoEffect)
    ensures Ids(Select(Select(sel, lang).selection, lang).selection) == Ids(sel)
  {
    var once := Select(sel, lang).selection;
    RemoveIdIds(sel, lang.id);
    assert once == RemoveId(sel, lang.id);
    assert lang.id !in Ids(once);
    assert Ids(once + [lang]) == Ids(once) + {lang.id};
  }

  /** A double tap on the last entry, when no other entry has its identifier, restores the selection. */
  lemma ToggleTwiceOnLastRestores(prefix: seq<Language>, lang: Language)
    requires |prefix| < MaxSelected - 1 && lang.id !in Ids(prefix)
    ensures Select(Select(prefix + [lang], lang).selection, lang) == Step(prefix + [lang], NoEffect)
  {
    var sel := prefix + [lang];
    assert lang in sel;
    ToggleTwiceMovesToEnd(sel, lang);
    RemoveIdAppend(prefix, [lang], lang.id);
    assert RemoveId([lang], lang.id) == [];
  }

  /** So a double tap does not always restore the order: Japanese moves behind German. */
  lemma ToggleTwiceReorders()
    ensures Select(Select([Languages[0], Languages[1]], Languages[0]).selection, Languages[0]).selection
            == [Languages[1], Languages[0]]
  {
    var japanese, german := Languages[0], Languages[1];
    var sel := [japanese, german];
    assert FindById(sel, japanese.id) == Some(japanese);
    assert RemoveId(sel, japanese.id) == [german];
    assert Select(sel, japanese).selection == [german];
    assert FindById([german], japanese.id) == None;
    assert Select([german], japanese).selection == [german, japanese];
  }
}
