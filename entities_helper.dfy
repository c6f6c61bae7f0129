/** The decisions the entity profile page's helpers make: which heading a relationship
    section gets, which tab is active, the order of the sections and two small labels. */
module EntitiesHelper {
  import opened Strings

  /** legacy_user_path: the old-style profile path of a user. */
  function LegacyUserPath(username: string): (r: string)
    ensures |r| == 6 + |username| && r[..6] == "/user/" && r[6..] == username
  {
    "/user/" + username
  }

  /** Different users have different legacy paths. */
  lemma LegacyUserPathInjective(a: string, b: string)
    requires LegacyUserPath(a) == LegacyUserPath(b)
    ensures a == b
  {
    assert a == LegacyUserPath(a)[6..];
  }

  /** active_tab?: the CSS class of a tab. */
  function ActiveTab(tabName: string, activeTab: string): (r: string)
    ensures r == "active" <==> tabName == activeTab
    ensures r == "inactive" <==> tabName != activeTab
  {
    if activeTab == tabName then "active" else "inactive"
  }

  /** get_other_positions_and_memberships_heading: the title of the section that lists the
      positions not shown elsewhere together with the memberships. */
  function OtherPositionsAndMembershipsHeading(positions: int, otherPositions: int, memberships: int): (r: string)
    ensures otherPositions == 0 ==> r == "Memberships"
    ensures otherPositions != 0 && memberships == 0 ==>
      (r == "Positions" <==> otherPositions == positions) &&
      (r == "Other Positions" <==> otherPositions != positions)
    ensures otherPositions != 0 && memberships != 0 ==>
      (r == "Positions & Memberships" <==> otherPositions == positions) &&
      (r == "Other Positions & Memberships" <==> otherPositions != positions)
  {
    if otherPositions == 0 then "Memberships"
    else if memberships == 0 then
      if otherPositions == positions then "Positions" else "Other Positions"
    else if otherPositions == positions then "Positions & Memberships"
    else "Other Positions & Memberships"
  }

  /** The heading assembled word by word: "Other" when the other positions are not all the
      positions, "Positions" when there are other positions, "Memberships" when there are
      memberships or no other positions, and "&" between the two when both are named. */
  function HeadingFromParts(positions: int, otherPositions: int, memberships: int): string {
    var namesPositions := otherPositions != 0;
    var namesMemberships := otherPositions == 0 || memberships != 0;
    (if namesPositions && otherPositions != positions then "Other " else "") +
    (if namesPositions then "Positions" else "") +
    (if namesPositions && namesMemberships then " & " else "") +
    (if namesMemberships then "Memberships" else "")
  }

  /** The if/elsif chain and the word-by-word reading agree on every input. */
  lemma HeadingComposed(positions: int, otherPositions: int, memberships: int)
    ensures OtherPositionsAndMembershipsHeading(positions, otherPositions, memberships) ==
      HeadingFromParts(positions, otherPositions, memberships)
  {
    var parts := HeadingFromParts(positions, otherPositions, memberships);
    HeadingWordsJoined();
    if otherPositions == 0 {
      assert parts == "" + "" + "" + "Memberships";
    } else if memberships == 0 && otherPositions == positions {
      assert parts == "" + "Positions" + "" + "";
    } else if memberships == 0 {
      assert parts == "Other " + "Positions" + "" + "";
    } else if otherPositions == positions {
      assert parts == "" + "Positions" + " & " + "Memberships";
    } else {
      assert parts == "Other " + "Positions" + " & " + "Memberships";
    }
  }

  /** The words of the three longer headings, joined; kept apart from HeadingComposed so
      that the literal joins are solved once. */
  lemma HeadingWordsJoined()
    ensures "Other " + "Positions" + "" + "" == "Other Positions"
    ensures "" + "Positions" + " & " + "Memberships" == "Positions & Memberships"
    ensures "Other " + "Positions" + " & " + "Memberships" == "Other Positions & Memberships"
  {
  }

  const PersonSectionOrder: seq<string> := [
    "business_positions",
    "government_positions",
    "in_the_office_positions",
    "other_positions_and_memberships",
    "schools",
    "holdings",
    "services_transactions",
    "family",
    "professional_relationships",
    "friendships",
    "donors",
    "donation_recipients",
    "staff",
    "political_fundraising_committees",
    "miscellaneous"
  ]

  const OrgSectionOrder: seq<string> := [
    "parents",
    "children",
    "other_positions_and_memberships",
    "staff"
  ]

  /** section_order: the relationship sections of a person's profile, or of any other
      entity's, in display order. */
  function SectionOrder(isPerson: bool): (r: seq<string>)
    ensures |r| == if isPerson then 15 else 4
    ensures "other_positions_and_memberships" in r && "staff" in r
  {
    if isPerson then PersonSectionOrder else OrgSectionOrder
  }

  /** No section is listed twice. */
  lemma SectionOrderDistinct(isPerson: bool)
    ensures var r := SectionOrder(isPerson); forall i, j :: 0 <= i < j < |r| ==> r[i] != r[j]
  {
    if isPerson {
      assert forall i, j :: 0 <= i < j < |PersonSectionOrder| ==>
        PersonSectionOrder[i] != PersonSectionOrder[j] by {}
    }
  }

  /** extra_links_count: nothing for at most one link, otherwise "[+n]" counting the links
      beyond the first. */
  function ExtraLinksCount(count: int): (r: string)
    ensures count <= 1 <==> r == ""
    ensures count > 1 ==> |r| >= 4 && r[..2] == "[+" && r[|r| - 1] == ']'
  {
    if count <= 1 then "" else "[+" + IntToString(count - 1) + "]"
  }

  /** The number between the brackets reads back as the count less one. */
  lemma ExtraLinksCountReadsBack(count: int)
    requires count > 1
    ensures var r := ExtraLinksCount(count); ToI(r[2..|r| - 1]) == count - 1
  {
    var r := ExtraLinksCount(count);
    assert r[2..|r| - 1] == IntToString(count - 1);
    ToIOfIntToString(count - 1);
  }
}
