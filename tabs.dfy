/**
 * The three-view tab bar: `switchTab` hides every view, resets every tab
 * button to the inactive colours, then shows the chosen view and gives its
 * button the active colours.
 */
module Tabs {
  import opened Strings

  const Views: seq<string> := ["dashboard-view", "monthly-view", "location-view"]
  const Buttons: seq<string> := ["tab-dashboard-btn", "tab-monthly-btn", "tab-location-btn"]

  const ActiveBg: string := "bg-indigo-600"
  const InactiveBg: string := "bg-gray-200"
  const ActiveText: string := "text-white"
  const InactiveText: string := "text-gray-600"

  /** The id of a view's button: `tab-${viewId.replace('-view', '-btn')}`. */
  function ButtonFor(viewId: string): (id: string)
    ensures |id| >= 4 && id[..4] == "tab-"
    ensures (forall k :: 0 <= k <= |viewId| ==> !OccursAt(viewId, "-view", k)) ==> id == "tab-" + viewId
    ensures forall k :: IsFirstOccurrence(viewId, "-view", k) ==>
              id == "tab-" + viewId[..k] + "-btn" + viewId[k + 5..]
  {
    var r := ReplaceFirst(viewId, "-view", "-btn");
    assert forall k :: IsFirstOccurrence(viewId, "-view", k) ==>
             "tab-" + r == "tab-" + viewId[..k] + "-btn" + viewId[k + 5..] by {
      forall k | IsFirstOccurrence(viewId, "-view", k)
        ensures "tab-" + r == "tab-" + viewId[..k] + "-btn" + viewId[k + 5..]
      {
        ReplaceFirstAt(viewId, "-view", "-btn", k);
      }
    }
    "tab-" + r
  }

  /** The position of a view in the tab bar. */
  function ViewIndex(tabId: string): (i: nat)
    requires tabId in Views
    ensures i < |Views| && Views[i] == tabId
  {
    if tabId == Views[0] then 0 else if tabId == Views[1] then 1 else 2
  }

  /** Replacing `-view` in `stem-view`, where `stem` has no dash, gives `stem-btn`. */
  lemma ReplaceViewSuffix(viewId: string, stem: string)
    requires viewId == stem + "-view"
    requires forall j :: 0 <= j < |stem| ==> stem[j] != '-'
    ensures ReplaceFirst(viewId, "-view", "-btn") == stem + "-btn"
  {
    assert viewId[|stem|..] == "-view";
    forall j | 0 <= j < |stem| ensures !OccursAt(viewId, "-view", j) {
      assert viewId[j] == stem[j];
    }
    ReplaceFirstAt(viewId, "-view", "-btn", |stem|);
    assert viewId[..|stem|] == stem;
  }

  /** Each view's button is the button listed beside it. */
  lemma ButtonForView(viewId: string)
    requires viewId in Views
    ensures ButtonFor(viewId) == Buttons[ViewIndex(viewId)]
  {
    if viewId == Views[0] {
      ReplaceViewSuffix(viewId, "dashboard");
      ButtonOfStem(viewId, "dashboard");
      ButtonsSpelled();
    } else if viewId == Views[1] {
      ReplaceViewSuffix(viewId, "monthly");
      ButtonOfStem(viewId, "monthly");
      ButtonsSpelled();
    } else {
      ReplaceViewSuffix(viewId, "location");
      ButtonOfStem(viewId, "location");
      ButtonsSpelled();
    }
  }

  lemma ButtonsSpelled()
    ensures Buttons[0] == "tab-" + "dashboard" + "-btn"
    ensures Buttons[1] == "tab-" + "monthly" + "-btn"
    ensures Buttons[2] == "tab-" + "location" + "-btn"
  {
  }

  lemma ButtonOfStem(viewId: string, stem: string)
    requires ReplaceFirst(viewId, "-view", "-btn") == stem + "-btn"
    ensures ButtonFor(viewId) == "tab-" + stem + "-btn"
  {
    assert "tab-" + (stem + "-btn") == "tab-" + stem + "-btn";
  }

  /**
   * `classList.replace(token, newToken)` on a class list seen as a set: only
   * when `token` is present is it swapped for `newToken`.
   */
  function ReplaceClass(classes: set<string>, token: string, newToken: string): (r: set<string>)
    ensures token in classes ==> newToken in r && (token != newToken ==> token !in r)
    ensures token !in classes ==> r == classes
    ensures forall c :: c != token && c != newToken ==> (c in r <==> c in classes)
  {
    if token in classes then classes - {token} + {newToken} else classes
  }

  /** Classes other than the four colours that `switchTab` swaps. */
  predicate Uncoloured(c: string) {
    c != ActiveBg && c != InactiveBg && c != ActiveText && c != InactiveText
  }

  /**
   * What the two `forEach` passes do to one button: no active colour is
   * left, an inactive colour is there exactly when it or its active
   * counterpart was, and other classes stay.
   */
  function Deactivate(classes: set<string>): (r: set<string>)
    ensures ActiveBg !in r && ActiveText !in r
    ensures InactiveBg in r <==> InactiveBg in classes || ActiveBg in classes
    ensures InactiveText in r <==> InactiveText in classes || ActiveText in classes
    ensures forall c :: Uncoloured(c) ==> (c in r <==> c in classes)
  {
    ReplaceClass(ReplaceClass(classes, ActiveBg, InactiveBg), ActiveText, InactiveText)
  }

  /**
   * What the last two statements do to the chosen view's button: no
   * inactive colour is left, an active colour is there exactly when it or
   * its inactive counterpart was, and other classes stay.
   */
  function Activate(classes: set<string>): (r: set<string>)
    ensures InactiveBg !in r && InactiveText !in r
    ensures ActiveBg in r <==> ActiveBg in classes || InactiveBg in classes
    ensures ActiveText in r <==> ActiveText in classes || InactiveText in classes
    ensures forall c :: Uncoloured(c) ==> (c in r <==> c in classes)
  {
    ReplaceClass(ReplaceClass(classes, InactiveBg, ActiveBg), InactiveText, ActiveText)
  }

  /** A button carries exactly one background and one text colour of the pair. */
  predicate Styled(classes: set<string>) {
    (ActiveBg in classes) != (InactiveBg in classes) && (ActiveText in classes) != (InactiveText in classes)
  }

  predicate ActiveStyle(classes: set<string>) {
    ActiveBg in classes && ActiveText in classes
  }

  /** A styled button stays styled when it is reset. */
  lemma DeactivateKeepsStyled(classes: set<string>)
    requires Styled(classes)
    ensures Styled(Deactivate(classes)) && !ActiveStyle(Deactivate(classes))
  {
  }

  /** Activating a deactivated styled button gives it exactly the active colours. */
  lemma ActivateAfterDeactivate(classes: set<string>)
    requires Styled(classes)
    ensures Styled(Activate(Deactivate(classes))) && ActiveStyle(Activate(Deactivate(classes)))
  {
  }

  /** The displays after `switchTab(tabId)`: the chosen view shown, the other views hidden. */
  function ShowOnly(display: map<string, string>, tabId: string): map<string, string> {
    map id | id in display :: if id == tabId then "block" else if id in Views then "none" else display[id]
  }

  /** The class lists after `switchTab(tabId)`: every button reset, then the chosen one activated. */
  function HighlightOnly(classList: map<string, set<string>>, tabId: string): map<string, set<string>>
    requires tabId in Views
  {
    map id | id in classList ::
      if id == Buttons[ViewIndex(tabId)] then Activate(Deactivate(classList[id]))
      else if id in Buttons then Deactivate(classList[id])
      else classList[id]
  }

  /** Exactly the chosen view is displayed, the others are hidden, and no other element changes. */
  lemma ShowOnlyShowsExactlyOne(display: map<string, string>, tabId: string)
    requires forall i :: 0 <= i < |Views| ==> Views[i] in display
    requires tabId in Views
    ensures ShowOnly(display, tabId).Keys == display.Keys
    ensures forall i :: 0 <= i < |Views| ==>
              (ShowOnly(display, tabId)[Views[i]] == "block" <==> Views[i] == tabId) &&
              (Views[i] != tabId ==> ShowOnly(display, tabId)[Views[i]] == "none")
    ensures forall id :: id in display && id !in Views ==> ShowOnly(display, tabId)[id] == display[id]
  {
  }

  /**
   * When every button carries one colour of each pair, afterwards every
   * button still does, and only the chosen view's button has the active ones.
   */
  lemma HighlightOnlyActivatesExactlyOne(classList: map<string, set<string>>, tabId: string)
    requires forall i :: 0 <= i < |Buttons| ==> Buttons[i] in classList && Styled(classList[Buttons[i]])
    requires tabId in Views
    ensures HighlightOnly(classList, tabId).Keys == classList.Keys
    ensures forall i :: 0 <= i < |Buttons| ==>
              Styled(HighlightOnly(classList, tabId)[Buttons[i]]) &&
              (ActiveStyle(HighlightOnly(classList, tabId)[Buttons[i]]) <==> Views[i] == tabId)
    ensures forall id :: id in classList && id !in Buttons ==> HighlightOnly(classList, tabId)[id] == classList[id]
  {
    forall i | 0 <= i < |Buttons|
      ensures Styled(HighlightOnly(classList, tabId)[Buttons[i]])
      ensures ActiveStyle(HighlightOnly(classList, tabId)[Buttons[i]]) <==> Views[i] == tabId
    {
      HighlightOnlyAt(classList, tabId, i);
    }
  }

  lemma HighlightOnlyAt(classList: map<string, set<string>>, tabId: string, i: nat)
    requires i < |Buttons| && Buttons[i] in classList && Styled(classList[Buttons[i]])
    requires tabId in Views
    ensures Styled(HighlightOnly(classList, tabId)[Buttons[i]])
    ensures ActiveStyle(HighlightOnly(classList, tabId)[Buttons[i]]) <==> Views[i] == tabId
  {
    var cs := classList[Buttons[i]];
    DeactivateKeepsStyled(cs);
    ActivateAfterDeactivate(cs);
    if Views[i] != tabId {
      assert ViewIndex(tabId) != i;
      assert Buttons[ViewIndex(tabId)] != Buttons[i];
      assert HighlightOnly(classList, tabId)[Buttons[i]] == Deactivate(cs);
    } else {
      assert HighlightOnly(classList, tabId)[Buttons[i]] == Activate(Deactivate(cs));
    }
  }

  lemma HiddenThenShown(d0: map<string, string>, d1: map<string, string>, tabId: string)
    requires tabId in Views && d1.Keys == d0.Keys
    requires forall i :: 0 <= i < |Views| ==> Views[i] in d1 && d1[Views[i]] == "none"
    requires forall id :: id in d1 && id !in Views ==> d1[id] == d0[id]
    ensures d1[tabId := "block"] == ShowOnly(d0, tabId)
  {
    var d2 := d1[tabId := "block"];
    forall id | id in d2 ensures d2[id] == ShowOnly(d0, tabId)[id] {
      if id in Views && id != tabId {
        var i :| 0 <= i < |Views| && Views[i] == id;
      }
    }
  }

  lemma ResetThenActivated(c0: map<string, set<string>>, c1: map<string, set<string>>,
                           c2: map<string, set<string>>, n: nat)
    requires n < |Views| && c1.Keys == c0.Keys && c2.Keys == c0.Keys
    requires forall i :: 0 <= i < |Buttons| ==>
               && Buttons[i] in c0
               && c1[Buttons[i]] == ReplaceClass(c0[Buttons[i]], ActiveBg, InactiveBg)
               && c2[Buttons[i]] == ReplaceClass(c1[Buttons[i]], ActiveText, InactiveText)
    requires forall id :: id in c0 && id !in Buttons ==> c1[id] == c0[id] && c2[id] == c1[id]
    ensures c2[Buttons[n] := Activate(c2[Buttons[n]])] == HighlightOnly(c0, Views[n])
  {
    var c3 := c2[Buttons[n] := Activate(c2[Buttons[n]])];
    assert ViewIndex(Views[n]) == n;
    forall id | id in c3 ensures c3[id] == HighlightOnly(c0, Views[n])[id] {
      if id == Buttons[n] {
        assert c3[id] == Activate(Deactivate(c0[id]));
      } else if id in Buttons {
        var i :| 0 <= i < |Buttons| && Buttons[i] == id;
        assert c3[id] == Deactivate(c0[id]);
      }
    }
  }

  /** The document as `switchTab` sees it: each element's `style.display` and class list. */
  class Page {
    var display: map<string, string>
    var classList: map<string, set<string>>

    /** `getElementById` finds every view and every button. */
    ghost predicate HasTabs()
      reads this
    {
      (forall i :: 0 <= i < |Views| ==> Views[i] in display) &&
      (forall i :: 0 <= i < |Buttons| ==> Buttons[i] in classList)
    }

    /**
     * The page as the markup sets it up: every view and button exists, and
     * every button carries one colour of each pair.
     */
    ghost predicate Valid()
      reads this
    {
      HasTabs() && forall i :: 0 <= i < |Buttons| ==> Styled(classList[Buttons[i]])
    }

    /** `tabs.forEach(id => ... style.display = 'none')`. */
    method HideViews()
      requires HasTabs()
      modifies this
      ensures classList == old(classList) && display.Keys == old(display.Keys)
      ensures forall i :: 0 <= i < |Views| ==> display[Views[i]] == "none"
      ensures forall id :: id in display && id !in Views ==> display[id] == old(display[id])
    {
      for i := 0 to |Views|
        invariant classList == old(classList) && display.Keys == old(display.Keys)
        invariant forall j :: 0 <= j < i ==> display[Views[j]] == "none"
        invariant forall id :: id in display && id !in Views[..i] ==> display[id] == old(display[id])
      {
        display := display[Views[i] := "none"];
      }
    }

    /** `btns.forEach(id => ... classList.replace(token, newToken))`. */
    method ReplaceOnButtons(token: string, newToken: string)
      requires HasTabs()
      modifies this
      ensures display == old(display) && classList.Keys == old(classList.Keys)
      ensures forall i :: 0 <= i < |Buttons| ==>
                classList[Buttons[i]] == ReplaceClass(old(classList[Buttons[i]]), token, newToken)
      ensures forall id :: id in classList && id !in Buttons ==> classList[id] == old(classList[id])
    {
      for i := 0 to |Buttons|
        invariant display == old(display) && classList.Keys == old(classList.Keys)
        invariant forall j :: 0 <= j < i ==>
                    classList[Buttons[j]] == ReplaceClass(old(classList[Buttons[j]]), token, newToken)
        invariant forall id :: id in classList && id !in Buttons[..i] ==> classList[id] == old(classList[id])
      {
        classList := classList[Buttons[i] := ReplaceClass(classList[Buttons[i]], token, newToken)];
      }
    }

    /** `switchTab(tabId)`. */
    method SwitchTab(tabId: string)
      requires HasTabs() && tabId in Views
      modifies this
      ensures display == ShowOnly(old(display), tabId)
      ensures classList == HighlightOnly(old(classList), tabId)
      ensures HasTabs()
      ensures old(Valid()) ==> Valid()
      ensures old(Valid()) ==>
                forall i :: 0 <= i < |Buttons| ==> (ActiveStyle(classList[Buttons[i]]) <==> Views[i] == tabId)
    {
      HideViews();
      HiddenThenShown(old(display), display, tabId);
      ReplaceOnButtons(ActiveBg, InactiveBg);
      ghost var c1 := classList;
      ReplaceOnButtons(ActiveText, InactiveText);
      ghost var c2 := classList;
      ghost var n := ViewIndex(tabId);
      ResetThenActivated(old(classList), c1, c2, n);

      display := display[tabId := "block"];
      ButtonForView(tabId);
      var btn := ButtonFor(tabId);
      // the two `classList.replace` calls on the chosen button
      classList := classList[btn := Activate(classList[btn])];
      ShowOnlyShowsExactlyOne(old(display), tabId);
      if old(Valid()) {
        HighlightOnlyActivatesExactlyOne(old(classList), tabId);
      }
    }
  }
}
