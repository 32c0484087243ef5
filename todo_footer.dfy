/** The footer under the list: the remaining-count message and the
    clear-completed button. */
module TodoFooter {
  import opened Text
  import opened Todos
  import App

  /** `getCountText`: the first rule that applies, in the order written. */
  function CountText(totalCount: nat, activeCount: nat): (msg: string)
    ensures totalCount == 0 ==> msg == "No todos"
    ensures totalCount > 0 && activeCount == 0 ==> msg == "All done! \U{1F389}"
    ensures totalCount > 0 && activeCount == 1 ==> msg == "1 item left"
    ensures totalCount > 0 && activeCount > 1 ==> msg == NatToString(activeCount) + " items left"
  {
    if totalCount == 0 then "No todos"
    else if activeCount == 0 then "All done! \U{1F389}"
    else if activeCount == 1 then "1 item left"
    else NatToString(activeCount) + " items left"
  }

  /** The message of a non-empty list tells every remaining count apart: the
      number shown reads back as the count. */
  lemma CountTextShowsCount(totalCount: nat, activeCount: nat)
    requires totalCount > 0 && activeCount > 1
    ensures var digits := NatToString(activeCount);
      && CountText(totalCount, activeCount)[..|digits|] == digits
      && ParseDecimal(digits) == activeCount
  {
    ParseNatToString(activeCount);
  }

  /** Two non-empty lists with different remaining counts get different
      messages. */
  lemma CountTextInjective(t1: nat, a1: nat, t2: nat, a2: nat)
    requires t1 > 0 && t2 > 0 && a1 != a2
    ensures CountText(t1, a1) != CountText(t2, a2)
  {
    if a1 > 1 && a2 > 1 {
      var d1, d2 := NatToString(a1), NatToString(a2);
      if CountText(t1, a1) == CountText(t2, a2) {
        assert |d1| == |d2|;
        assert d1 == CountText(t1, a1)[..|d1|];
        ParseNatToString(a1);
        ParseNatToString(a2);
      }
    } else if a1 > 1 || a2 > 1 {
      var a := if a1 > 1 then a1 else a2;
      var d := NatToString(a);
      assert (d + " items left")[0] == d[0];
      assert '0' <= d[0] <= '9';
    }
  }

  /** The footer is only shown for a non-empty list. Once the effect has
      brought the counts in step with the list (`App.AppState.Refresh`
      ensures `stats == CountStats(todos)`), its message is never
      "No todos". */
  lemma FooterNeverSaysEmpty(app: App.AppState)
    requires |app.todos| > 0 && app.stats == CountStats(app.todos)
    ensures CountText(app.stats.total, app.stats.active) != "No todos"
  {
    var c := app.stats;
    if c.active > 1 {
      var d := NatToString(c.active);
      assert (d + " items left")[0] == d[0];
      assert '0' <= d[0] <= '9';
    }
  }

  datatype Button = Button(text: string, disabled: bool)

  /** The clear button: shown exactly when something is completed, disabled
      and labelled "Clearing..." while busy, otherwise labelled with the
      number of completed items. */
  function ClearButton(completedCount: nat, loading: bool): (b: Option<Button>)
    ensures b.Some? <==> completedCount > 0
    ensures b.Some? ==> b.value.disabled == loading
    ensures b.Some? && loading ==> b.value.text == "Clearing..."
    ensures b.Some? && !loading ==> b.value.text == "Clear Completed (" + NatToString(completedCount) + ")"
  {
    if completedCount > 0 then
      Some(Button(if loading then "Clearing..." else "Clear Completed (" + NatToString(completedCount) + ")", loading))
    else None
  }
}
