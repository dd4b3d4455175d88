/** The request URL built for one satellite list in `download_data`, and the
    name of the file its response is saved to. */
module Query {
  import opened Wrappers
  import opened Text
  import opened Numerals

  const BasePath := "https://www.space-track.org/basicspacedata/query"
  const ClassPath := "class/tle_latest/ORDINAL/1"
  const IdField := "NORAD_CAT_ID/"
  const FormatPath := "format/3le"

  /** Everything in front of the identifiers in a query URL. */
  const Prefix := BasePath + "/" + ClassPath + "/" + IdField

  /** Everything after the identifiers in a query URL. */
  const Suffix := "/" + FormatPath

  /** `[str(id) for id in IDs]`. */
  function Render(ids: seq<int>): (r: seq<string>)
    ensures |r| == |ids|
    ensures forall k :: 0 <= k < |ids| ==> r[k] == IntToString(ids[k])
  {
    seq(|ids|, k requires 0 <= k < |ids| => IntToString(ids[k]))
  }

  /** `",".join(...)` of the rendered identifiers, in stored order. */
  function IdSegment(ids: seq<int>): string
  {
    Join(Render(ids), ",")
  }

  /** The query URL: four path pieces joined with `"/"`. */
  function QueryUrl(ids: seq<int>): string
  {
    Join([BasePath, ClassPath, IdField + IdSegment(ids), FormatPath], "/")
  }

  /** `"{}.txt".format(listname)`. */
  function FileName(listName: string): string
  {
    listName + ".txt"
  }

  /** The URL is the fixed prefix, the comma-joined identifiers and the fixed
      format suffix. */
  lemma QueryShape(ids: seq<int>)
    ensures QueryUrl(ids) == Prefix + IdSegment(ids) + Suffix
  {
    JoinFour(BasePath, ClassPath, IdField + IdSegment(ids), FormatPath, "/");
    Regroup(BasePath, ClassPath, IdField, IdSegment(ids), FormatPath, "/");
  }

  lemma Regroup(a: string, b: string, c: string, seg: string, d: string, sep: string)
    ensures a + sep + b + sep + (c + seg) + sep + d == (a + sep + b + sep + c) + seg + (sep + d)
  {
  }

  lemma JoinFour(a: string, b: string, c: string, d: string, sep: string)
    ensures Join([a, b, c, d], sep) == a + sep + b + sep + c + sep + d
  {
    var parts := [a, b, c, d];
    assert parts[1..] == [b, c, d];
    assert parts[1..][1..] == [c, d];
    assert parts[1..][1..][1..] == [d];
    assert Join([c, d], sep) == c + sep + d;
    assert Join([b, c, d], sep) == b + sep + (c + sep + d);
    assert Join(parts, sep) == a + sep + (b + sep + (c + sep + d));
  }

  /** Splitting the identifier segment of a non-empty list on `','` and
      reading each piece back gives the identifiers in stored order. */
  lemma SegmentRoundTrip(ids: seq<int>)
    requires |ids| > 0
    ensures var pieces := Split(IdSegment(ids), ',');
            |pieces| == |ids| && forall k :: 0 <= k < |ids| ==> ParseInt(pieces[k]) == Some(ids[k])
  {
    SplitJoin(Render(ids), ',');
    forall k | 0 <= k < |ids|
      ensures ParseInt(Render(ids)[k]) == Some(ids[k])
    {
      ParseRender(ids[k]);
    }
  }

  /** An empty list still yields a query, with nothing between
      `NORAD_CAT_ID/` and `/format/3le`. */
  lemma EmptyListQuery()
    ensures QueryUrl([]) == Prefix + Suffix
  {
    QueryShape([]);
  }

  /** Different identifier lists (as sequences, so order counts) give
      different URLs: the URL determines the list. */
  lemma QueryInjective(a: seq<int>, b: seq<int>)
    requires QueryUrl(a) == QueryUrl(b)
    ensures a == b
  {
    QueryShape(a);
    QueryShape(b);
    var sa, sb := IdSegment(a), IdSegment(b);
    assert sa == (Prefix + sa + Suffix)[|Prefix|..|Prefix| + |sa|];
    assert |sa| == |sb|;
    assert sb == (Prefix + sb + Suffix)[|Prefix|..|Prefix| + |sb|];
    if |a| == 0 || |b| == 0 {
      if |a| > 0 {
        assert |Render(a)[0]| > 0;
        SegmentNonEmpty(a);
      }
      if |b| > 0 {
        SegmentNonEmpty(b);
      }
    } else {
      SegmentRoundTrip(a);
      SegmentRoundTrip(b);
      var pieces := Split(sa, ',');
      forall k | 0 <= k < |a|
        ensures a[k] == b[k]
      {
        assert ParseInt(pieces[k]) == Some(a[k]) && ParseInt(pieces[k]) == Some(b[k]);
      }
    }
  }

  /** The segment of a non-empty list is non-empty. */
  lemma {:induction false} SegmentNonEmpty(ids: seq<int>)
    requires |ids| > 0
    ensures |IdSegment(ids)| > 0
  {
  }

  /** Distinct list names are saved to distinct files. */
  lemma FileNameInjective(a: string, b: string)
    requires FileName(a) == FileName(b)
    ensures a == b
  {
    assert a == FileName(a)[..|a|];
  }
}
