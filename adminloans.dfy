/** The admin loans client: the status badge of a loan in the admin listing and the
    query string the listing is fetched with. */
module AdminLoans {
  import opened Base
  import opened Strings
  import opened FormEncoding

  // ---------------------------------------------------------------- loan status

  /** The fields of a listed loan that the status reads: whether it is returned, the
      server's overdue flag and the server's days remaining. */
  datatype LoanView = LoanView(returned: bool, isOverdue: bool, daysRemaining: int)

  /** The record `calculateLoanStatus` returns. */
  datatype LoanStatus = LoanStatus(status: string, caption: string, badgeClass: string)

  const StatusNames: seq<string> := ["returned", "overdue", "due-soon", "active"]

  /** The badge class that goes with each status. */
  function BadgeFor(status: string): string {
    if status == "returned" then "bg-secondary"
    else if status == "overdue" then "bg-danger"
    else if status == "due-soon" then "bg-warning"
    else "bg-success"
  }

  /** `calculateLoanStatus`: returned first, then the overdue flag, then two days or
      fewer remaining, else active. */
  function CalculateLoanStatus(l: LoanView): (r: LoanStatus)
    ensures r.status in StatusNames
    ensures r.status == "returned" <==> l.returned
    ensures r.status == "overdue" <==> !l.returned && l.isOverdue
    ensures r.status == "due-soon" <==> !l.returned && !l.isOverdue && l.daysRemaining <= 2
    ensures r.status == "active" <==> !l.returned && !l.isOverdue && l.daysRemaining > 2
    ensures r.badgeClass == BadgeFor(r.status)
    ensures r.status == "returned" ==> r.caption == "Returned"
    ensures r.status == "overdue" ==> r.caption == "Overdue by " + NatToString(Abs(l.daysRemaining)) + " day(s)"
    ensures r.status == "due-soon" ==> r.caption == "Due soon (" + IntToString(l.daysRemaining) + " day(s))"
    ensures r.status == "active" ==> r.caption == IntToString(l.daysRemaining) + " day(s) left"
  {
    if l.returned then LoanStatus("returned", "Returned", "bg-secondary")
    else if l.isOverdue then
      LoanStatus("overdue", "Overdue by " + NatToString(Abs(l.daysRemaining)) + " day(s)", "bg-danger")
    else if l.daysRemaining <= 2 then
      LoanStatus("due-soon", "Due soon (" + IntToString(l.daysRemaining) + " day(s))", "bg-warning")
    else LoanStatus("active", IntToString(l.daysRemaining) + " day(s) left", "bg-success")
  }

  // ---------------------------------------------------------------- query string

  /** The filters of `fetchAllLoans`; an absent field is `None`. */
  datatype LoanFilters = LoanFilters(status: Option<string>, search: Option<string>)

  /** The parameters appended, in order: the status when present and not `all`, then the
      search when present. */
  function QueryParams(f: LoanFilters): seq<(string, string)> {
    (if Truthy(f.status) && f.status.value != "all" then [("status", f.status.value)] else [])
      + (if Truthy(f.search) then [("search", f.search.value)] else [])
  }

  function Pair(p: (string, string)): string {
    Encode(p.0) + "=" + Encode(p.1)
  }

  function Pairs(ps: seq<(string, string)>): (r: seq<string>)
    ensures |r| == |ps|
    ensures forall k :: 0 <= k < |ps| ==> r[k] == Pair(ps[k])
    decreases |ps|
  {
    if ps == [] then [] else [Pair(ps[0])] + Pairs(ps[1..])
  }

  /** `URLSearchParams.prototype.toString`: the encoded pairs joined by `&`. */
  function Serialize(ps: seq<(string, string)>): string {
    if ps == [] then "" else Join(Pairs(ps), '&')
  }

  /** The suffix of `/api/loans/all`: `?` and the parameters, or nothing. */
  function QueryString(f: LoanFilters): string {
    var s := Serialize(QueryParams(f));
    if s != "" then "?" + s else ""
  }

  /** Splits one `name=value` piece and decodes both halves. */
  function ParsePair(piece: string): Option<(string, string)> {
    var halves := Split(piece, '=');
    if |halves| != 2 then None
    else match (Decode(halves[0]), Decode(halves[1]))
      case (Some(name), Some(value)) => Some((name, value))
      case _ => None
  }

  function ParsePairs(pieces: seq<string>): Option<seq<(string, string)>>
    decreases |pieces|
  {
    if pieces == [] then Some([])
    else match (ParsePair(pieces[0]), ParsePairs(pieces[1..]))
      case (Some(p), Some(ps)) => Some([p] + ps)
      case _ => None
  }

  /** Reads a query string back into its parameters. */
  function ParseQuery(q: string): Option<seq<(string, string)>> {
    if q == "" then Some([])
    else if q[0] != '?' then None
    else ParsePairs(Split(q[1..], '&'))
  }

  lemma PairRoundTrip(p: (string, string))
    ensures '&' !in Pair(p)
    ensures ParsePair(Pair(p)) == Some(p)
  {
    var a := Encode(p.0);
    var b := Encode(p.1);
    assert Pair(p) == a + ['='] + b;
    assert Join([a, b], '=') == a + ['='] + Join([b], '=');
    SplitJoin([a, b], '=');
    DecodeEncode(p.0);
    DecodeEncode(p.1);
  }

  /** No encoded pair holds an `&`, so joining them with `&` can be split again. */
  lemma PairsFreeOfAmpersand(ps: seq<(string, string)>)
    ensures forall k :: 0 <= k < |ps| ==> '&' !in Pairs(ps)[k]
  {
    forall k | 0 <= k < |ps| ensures '&' !in Pairs(ps)[k] {
      PairRoundTrip(ps[k]);
    }
  }

  lemma {:induction false} PairsRoundTrip(ps: seq<(string, string)>)
    ensures ParsePairs(Pairs(ps)) == Some(ps)
    decreases |ps|
  {
    if ps != [] {
      var pieces := Pairs(ps);
      PairRoundTrip(ps[0]);
      PairsRoundTrip(ps[1..]);
      assert pieces[1..] == Pairs(ps[1..]);
      ParsePairsCons(pieces, ps[0], ps[1..]);
      assert ps == [ps[0]] + ps[1..];
    }
  }

  lemma ParsePairsCons(pieces: seq<string>, p: (string, string), ps: seq<(string, string)>)
    requires pieces != [] && ParsePair(pieces[0]) == Some(p) && ParsePairs(pieces[1..]) == Some(ps)
    ensures ParsePairs(pieces) == Some([p] + ps)
  {
  }

  /** The query string carries exactly the parameters: it is empty when there are none
      (no status or `all`, and no search), and reading it back gives the status only when
      it is present and not `all`, then the search when present. */
  lemma QueryStringRoundTrip(f: LoanFilters)
    ensures QueryString(f) == "" <==> QueryParams(f) == []
    ensures ParseQuery(QueryString(f)) == Some(QueryParams(f))
    ensures (exists k :: 0 <= k < |QueryParams(f)| && QueryParams(f)[k].0 == "status")
            <==> Truthy(f.status) && f.status.value != "all"
  {
    var ps := QueryParams(f);
    if ps != [] {
      var pieces := Pairs(ps);
      PairsRoundTrip(ps);
      PairsFreeOfAmpersand(ps);
      SplitJoin(pieces, '&');
      assert pieces[0] == Encode(ps[0].0) + "=" + Encode(ps[0].1);
      assert |Join(pieces, '&')| > 0 by { JoinNotEmpty(pieces, '&'); }
      assert QueryString(f) == "?" + Join(pieces, '&');
      assert QueryString(f)[1..] == Join(pieces, '&');
    }
  }

  lemma JoinNotEmpty(parts: seq<string>, sep: char)
    requires |parts| >= 1 && |parts[0]| > 0
    ensures |Join(parts, sep)| > 0
  {
  }
}
