/**
 * A hall-of-fame card: the photo or its placeholder, the two social links shortened to
 * thirty characters, the "no link" placeholder, the edit button hidden by the lock, and
 * the admin's lock toggle, which writes the negation of the flag the card displays.
 */
module HallOfFameCard {
  import opened Wrappers
  import opened Schema

  const LinkLimit: nat := 30
  const Ellipsis: string := "..."

  /** The visible text of a link: the link itself up to thirty characters, else its first thirty and "...". */
  function LinkText(link: string): (r: string)
    ensures |link| <= LinkLimit ==> r == link
    ensures |link| > LinkLimit ==> |r| == LinkLimit + |Ellipsis| && r[..LinkLimit] == link[..LinkLimit] && r[LinkLimit..] == Ellipsis
    ensures |r| <= LinkLimit + |Ellipsis|
  {
    if |link| > LinkLimit then link[..LinkLimit] + Ellipsis else link
  }

  /** Shortening an already shortened text changes nothing. */
  lemma LinkTextIdempotent(link: string)
    ensures LinkText(LinkText(link)) == LinkText(link)
  {
    if |link| > LinkLimit {
      var t := LinkText(link);
      assert t[..LinkLimit] == link[..LinkLimit];
    }
  }

  /**
   * The text equals the link exactly for links of at most thirty characters and for
   * thirty-three-character links that already end in "...": the display cannot tell those
   * apart from a shortened one.
   */
  lemma LinkTextUnchangedIff(link: string)
    ensures LinkText(link) == link <==> |link| <= LinkLimit || (|link| == LinkLimit + |Ellipsis| && link[LinkLimit..] == Ellipsis)
  {
    if |link| == LinkLimit + |Ellipsis| && link[LinkLimit..] == Ellipsis {
      assert link == link[..LinkLimit] + link[LinkLimit..];
    }
  }

  /** An anchor opened in a new tab. */
  datatype Anchor = Anchor(href: string, text: string)

  /** A link is rendered only when it is non-null and non-empty. */
  function LinkAnchor(link: Option<string>): (a: Option<Anchor>)
    ensures a.Some? <==> Present(link)
    ensures a.Some? ==> a.value.href == link.value && a.value.text == LinkText(link.value)
  {
    if Present(link) then Some(Anchor(link.value, LinkText(link.value))) else None
  }

  datatype LockButton = LockButton(shownLocked: bool)

  /** What one card renders for a viewer. */
  datatype CardView = CardView(
    photo: Option<string>,
    name: string,
    link1: Option<Anchor>,
    link2: Option<Anchor>,
    noLinkNotice: bool,
    editButton: bool,
    lockButton: Option<LockButton>)

  function RenderProfile(profile: HallOfFameProfile, isAdmin: bool): (v: CardView)
    ensures v.photo.Some? <==> Present(profile.imageUrl)
    ensures v.photo.Some? ==> v.photo == profile.imageUrl
    ensures v.name == profile.name
    ensures v.link1 == LinkAnchor(profile.socialLink1) && v.link2 == LinkAnchor(profile.socialLink2)
    ensures v.noLinkNotice <==> !Present(profile.socialLink1) && !Present(profile.socialLink2)
    ensures v.editButton <==> !profile.locked
    ensures v.lockButton.Some? <==> isAdmin
    ensures v.lockButton.Some? ==> v.lockButton.value.shownLocked == profile.locked
  {
    CardView(
      if Present(profile.imageUrl) then profile.imageUrl else None,
      profile.name,
      LinkAnchor(profile.socialLink1),
      LinkAnchor(profile.socialLink2),
      !Present(profile.socialLink1) && !Present(profile.socialLink2),
      !profile.locked,
      if isAdmin then Some(LockButton(profile.locked)) else None)
  }

  /** The placeholder appears exactly when the card shows no anchor at all. */
  lemma NoLinkNoticeIffNoAnchor(profile: HallOfFameProfile, isAdmin: bool)
    ensures RenderProfile(profile, isAdmin).noLinkNotice <==>
      RenderProfile(profile, isAdmin).link1.None? && RenderProfile(profile, isAdmin).link2.None?
  {
  }

  /** `update({ locked: !profile.locked }).eq('id', profile.id)` applied to the table. */
  function ToggleLockRow(table: seq<HallOfFameProfile>, profile: HallOfFameProfile): (r: seq<HallOfFameProfile>)
    ensures |r| == |table|
    ensures forall i :: 0 <= i < |table| && table[i].id != profile.id ==> r[i] == table[i]
    ensures forall i :: 0 <= i < |table| && table[i].id == profile.id ==> r[i] == table[i].(locked := !profile.locked)
  {
    seq(|table|, i requires 0 <= i < |table| =>
      if table[i].id == profile.id then table[i].(locked := !profile.locked) else table[i])
  }

  /** `hall_of_fame.id` is a primary key. */
  predicate IdsUnique(table: seq<HallOfFameProfile>)
  {
    forall i, j :: 0 <= i < j < |table| ==> table[i].id != table[j].id
  }

  /** The toggle leaves the table alone on an error and writes the negated flag otherwise. */
  function HandleToggleLock(table: seq<HallOfFameProfile>, profile: HallOfFameProfile, updateOk: bool): (r: seq<HallOfFameProfile>)
    ensures |r| == |table|
    ensures !updateOk ==> r == table
    ensures updateOk ==> forall i :: 0 <= i < |table| && table[i].id == profile.id ==>
      r[i].locked != profile.locked && r[i].(locked := table[i].locked) == table[i]
    ensures forall i :: 0 <= i < |table| && table[i].id != profile.id ==> r[i] == table[i]
  {
    if updateOk then ToggleLockRow(table, profile) else table
  }

  /**
   * Two successful toggles, each from a card showing the current row, restore the table.
   */
  lemma ToggleTwiceRestores(table: seq<HallOfFameProfile>, i: nat)
    requires i < |table| && IdsUnique(table)
    ensures ToggleLockRow(ToggleLockRow(table, table[i]), ToggleLockRow(table, table[i])[i]) == table
  {
    var once := ToggleLockRow(table, table[i]);
    var twice := ToggleLockRow(once, once[i]);
    forall j | 0 <= j < |table| ensures twice[j] == table[j] {
      if j != i {
        assert table[j].id != table[i].id;
      }
    }
  }

  /**
   * The written value comes from the card's copy of the row: a card whose copy is out of
   * date (the row is already the negation of what it shows) writes the stored value again.
   */
  lemma StaleToggleWritesNothingNew(table: seq<HallOfFameProfile>, profile: HallOfFameProfile)
    requires forall i :: 0 <= i < |table| && table[i].id == profile.id ==> table[i].locked == !profile.locked
    ensures ToggleLockRow(table, profile) == table
  {
    var r := ToggleLockRow(table, profile);
    forall i | 0 <= i < |table| ensures r[i] == table[i] {
    }
  }
}
