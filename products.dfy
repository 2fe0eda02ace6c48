/** The product record the page receives from its API, and the way its date
    is shown in the table and matched by the search. */
module Products {
  import opened Text

  /** One inventory product; date is an ISO yyyy-mm-dd string. */
  datatype Item = Item(id: int, name: string, date: string, quantity: int)

  /** The shape yyyy-mm-dd. */
  predicate IsIsoDate(d: string) {
    |d| == 10 && d[4] == '-' && d[7] == '-' &&
    IsDigit(d[0]) && IsDigit(d[1]) && IsDigit(d[2]) && IsDigit(d[3]) &&
    IsDigit(d[5]) && IsDigit(d[6]) && IsDigit(d[8]) && IsDigit(d[9])
  }

  /** Stand-in for new Date(d + 'T00:00:00').toLocaleDateString('pt-BR'):
      an ISO date is shown day first as dd/mm/yyyy; anything else is an
      invalid date. */
  function RenderDate(d: string): (r: string)
    ensures IsIsoDate(d) ==> |r| == 10 && r[2] == '/' && r[5] == '/'
    ensures !IsIsoDate(d) ==> r == "Invalid Date"
  {
    if IsIsoDate(d) then d[8..10] + "/" + d[5..7] + "/" + d[0..4] else "Invalid Date"
  }

  /** Reads a dd/mm/yyyy rendering back as yyyy-mm-dd. */
  function IsoOfRendered(r: string): string
    requires |r| == 10
  {
    r[6..10] + "-" + r[3..5] + "-" + r[0..2]
  }

  /** The rendering loses nothing: the ISO date can be read back from it. */
  lemma RenderDateRoundTrip(d: string)
    requires IsIsoDate(d)
    ensures IsoOfRendered(RenderDate(d)) == d
  {
    var r := RenderDate(d);
    var b := IsoOfRendered(r);
    assert |b| == 10;
    forall k | 0 <= k < 10 ensures b[k] == d[k] {
    }
  }

  /** Lower-casing the rendering of an ISO date, as the search does, changes
      nothing: it holds only digits and slashes. */
  lemma LowerRenderDate(d: string)
    requires IsIsoDate(d)
    ensures Lower(RenderDate(d)) == RenderDate(d)
  {
    var r := RenderDate(d);
    assert r == [d[8], d[9], '/', d[5], d[6], '/', d[0], d[1], d[2], d[3]];
    assert forall k :: 0 <= k < |r| ==> IsDigit(r[k]) || r[k] == '/';
    LowerNoLetters(r);
  }
}
