/** The page title `render` hands to the page decoration: a title the user
    supplied wins, then the title found in the score, then a fixed
    placeholder. An absent or empty title counts as missing. */
module Page {
  import opened Common

  const Placeholder := "Unknown"

  /** The title fallback of `render`. */
  function PageTitle(user: Option<string>, score: Option<string>): (r: string)
    ensures r != ""
    ensures Truthy(user) ==> r == user.value
    ensures r != Placeholder ==> (Truthy(user) && r == user.value) || (Truthy(score) && r == score.value)
  {
    var title := if !Truthy(user) && Truthy(score) then score else user;
    if !Truthy(title) then Placeholder else title.value
  }

  /** Reference reading of the fallback: the first usable candidate of a
      priority list, or the placeholder when none is usable. */
  function FirstUsable(candidates: seq<Option<string>>): (r: string)
    ensures r != ""
  {
    if |candidates| == 0 then Placeholder
    else if Truthy(candidates[0]) then candidates[0].value
    else FirstUsable(candidates[1..])
  }

  /** The fallback is exactly "first usable of user then score". */
  lemma PageTitleIsFirstUsable(user: Option<string>, score: Option<string>)
    ensures PageTitle(user, score) == FirstUsable([user, score])
  {
    assert [user, score][1..] == [score];
    assert [score][1..] == [];
    assert FirstUsable([score]) == if Truthy(score) then score.value else FirstUsable([]);
  }

  /** Feeding the chosen title back in as the user's title changes nothing,
      whatever the score says. */
  lemma PageTitleStable(user: Option<string>, score: Option<string>, other: Option<string>)
    ensures PageTitle(Some(PageTitle(user, score)), other) == PageTitle(user, score)
  {
  }

  /** The placeholder appears only when neither title is usable, or when a
      usable one literally reads "Unknown". */
  lemma PlaceholderOnlyWhenMissing(user: Option<string>, score: Option<string>)
    ensures PageTitle(user, score) == Placeholder <==>
      (!Truthy(user) && !Truthy(score)) || (Truthy(user) && user.value == Placeholder)
      || (!Truthy(user) && Truthy(score) && score.value == Placeholder)
  {
  }
}
