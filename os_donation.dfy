/** A campaign contribution imported from OpenSecrets: its unique FEC cycle id and the
    reference (name and address) that cites the FEC filing it came from. */
module OsDonationModel {
  import opened Wrappers
  import opened Strings

  /** The id `"#{cycle}_#{fectransid}"`. */
  function FecCycleId(cycle: string, fectransid: string): (r: string)
    ensures |r| == |cycle| + 1 + |fectransid|
    ensures r[..|cycle|] == cycle && r[|cycle|] == '_' && r[|cycle| + 1..] == fectransid
  {
    cycle + "_" + fectransid
  }

  /** With cycles free of underscores (they are election years), the id determines the
      cycle and the transaction id, which is what makes it usable as a unique key. */
  lemma FecCycleIdInjective(c1: string, f1: string, c2: string, f2: string)
    requires '_' !in c1 && '_' !in c2
    requires FecCycleId(c1, f1) == FecCycleId(c2, f2)
    ensures c1 == c2 && f1 == f2
  {
  }

  const FecSearchPage := "http://www.fec.gov/finance/disclosure/advindsea.shtml"
  const FecImagePrefix := "http://docquery.fec.gov/cgi-bin/fecimg/?"

  /** Ruby string interpolation of a nullable value: nil interpolates as nothing. */
  function Interpolate(v: Option<string>): (r: string)
    ensures v.None? ==> r == []
    ensures v.Some? ==> r == v.value
  {
    match v
    case None => ""
    case Some(s) => s
  }

  /** reference_name: "FEC Filing " followed by the microfilm number, if any. */
  function ReferenceName(microfilm: Option<string>): (r: string)
    ensures |r| >= 11 && r[..11] == "FEC Filing "
    ensures microfilm.None? ==> r == "FEC Filing "
    ensures microfilm.Some? ==> r[11..] == microfilm.value
  {
    "FEC Filing " + Interpolate(microfilm)
  }

  /** reference_url, which reference_source aliases: the filing's image when the microfilm
      number is known, the FEC's general search page when it is not. */
  function ReferenceUrl(microfilm: Option<string>): (r: string)
    ensures microfilm.None? ==> r == FecSearchPage
    ensures microfilm.Some? ==>
      (|r| == |FecImagePrefix| + |microfilm.value| &&
       r[..|FecImagePrefix|] == FecImagePrefix && r[|FecImagePrefix|..] == microfilm.value)
  {
    if microfilm.None? then FecSearchPage else FecImagePrefix + microfilm.value
  }

  /** Name and address cite the same filing: different microfilm numbers give different
      names and different addresses. */
  lemma ReferencesIdentifyFiling(m1: Option<string>, m2: Option<string>)
    ensures ReferenceName(m1) == ReferenceName(m2) <==> Interpolate(m1) == Interpolate(m2)
    ensures m1.Some? && m2.Some? ==> (ReferenceUrl(m1) == ReferenceUrl(m2) <==> m1 == m2)
  {
    if ReferenceName(m1) == ReferenceName(m2) {
      assert Interpolate(m1) == ReferenceName(m1)[11..];
    }
    if m1.Some? && m2.Some? && ReferenceUrl(m1) == ReferenceUrl(m2) {
      assert m1.value == ReferenceUrl(m1)[|FecImagePrefix|..];
    }
  }

  /** An OpenSecrets donation row; the columns the model reads are nullable strings. */
  class OsDonation {
    var cycle: Option<string>
    var fectransid: Option<string>
    var microfilm: Option<string>
    var fecCycleId: Option<string>

    constructor (cycle: Option<string>, fectransid: Option<string>, microfilm: Option<string>)
      ensures this.cycle == cycle && this.fectransid == fectransid && this.microfilm == microfilm
      ensures fecCycleId.None?
    {
      this.cycle := cycle;
      this.fectransid := fectransid;
      this.microfilm := microfilm;
      fecCycleId := None;
    }

    /** create_fec_cycle_id: with both the cycle and the transaction id present, the id
        becomes their underscore-joined pair; otherwise it keeps its value. */
    method CreateFecCycleId()
      modifies this
      ensures cycle == old(cycle) && fectransid == old(fectransid) && microfilm == old(microfilm)
      ensures Present(cycle) && Present(fectransid) ==>
        fecCycleId == Some(FecCycleId(cycle.value, fectransid.value))
      ensures !(Present(cycle) && Present(fectransid)) ==> fecCycleId == old(fecCycleId)
    {
      if Present(cycle) && Present(fectransid) {
        fecCycleId := Some(FecCycleId(cycle.value, fectransid.value));
      }
    }
  }

  /** Running the callback twice gives the same id as running it once. */
  method CreateFecCycleIdTwice(d: OsDonation)
    modifies d
    ensures d.fecCycleId == (if Present(old(d.cycle)) && Present(old(d.fectransid))
      then Some(FecCycleId(old(d.cycle).value, old(d.fectransid).value)) else old(d.fecCycleId))
  {
    d.CreateFecCycleId();
    d.CreateFecCycleId();
  }
}
