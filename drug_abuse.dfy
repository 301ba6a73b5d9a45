/** The drug-abuse project object: a table from drug name to the last
    sodium-to-potassium ratio read for it, the list of every ratio read, and
    the two queries over that list. */
module DrugAbuse {
  import opened Ingest

  /** What `analyze_data` reports: the no-data outcome, or the mean ratio. */
  datatype Analysis = NoData | Average(mean: real)

  /** What `visualize_data` returns: no image, or the picture of a histogram
      of `series` drawn with `bins` bars (the drawing itself is not modelled). */
  datatype Visualization = NoImage | Histogram(series: seq<real>, bins: nat)

  /** The bar count the histogram is drawn with. */
  const HISTOGRAM_BINS: nat := 10

  class DrugAbuseProject {
    /** Drug name to the ratio of the last row read for it. */
    var data: map<string, real>
    /** The ratio of every row read, in reading order. */
    var ratios: seq<real>
    /** Every row read adds one ratio and at most one table entry, so the
        table never has more entries than the ratio list. */
    ghost predicate Valid()
      reads this
    {
      |data| <= |ratios|
    }

    /** A fresh project holds no data. */
    constructor ()
      ensures Valid()
      ensures data == map[] && ratios == []
    {
      data := map[];
      ratios := [];
    }

    /** Reads `rows` in order, writing each row's ratio under its drug name
        and appending it to the ratio list. The first row that cannot be read
        ends the call: rows before it stay applied, it and later rows are not. */
    method GatherData(rows: seq<Row>, parse: Parser) returns (outcome: Outcome)
      requires Valid()
      modifies this
      ensures Valid()
      ensures outcome == Scan(rows, parse).outcome
      ensures ratios == old(ratios) + Values(Scan(rows, parse).records)
      ensures data == Overwrite(old(data), Scan(rows, parse).records)
    {
      ghost var data0, ratios0 := data, ratios;
      var i := 0;
      ghost var done: seq<Record> := [];
      while i < |rows|
        invariant 0 <= i <= |rows|
        invariant Collect(Readings(rows, parse)[..i]) == Load(done, Completed)
        invariant ratios == ratios0 + Values(done)
        invariant data == Overwrite(data0, done)
      {
        ScanNext(rows, parse, i, done);
        var reading := ParseRow(rows[i], parse);
        if reading.Failed? {
          BoundKept(data0, ratios0, done);
          return Aborted(i, reading.error);
        }
        var rec := reading.record;
        AppendRecord(data0, ratios0, done, rec);
        data := data[rec.key := rec.value];
        ratios := ratios + [rec.value];
        done := done + [rec];
        i := i + 1;
      }
      assert Readings(rows, parse)[..i] == Readings(rows, parse);
      BoundKept(data0, ratios0, done);
      return Completed;
    }

    /** The empty-list guard, then the mean of the ratios. */
    function AnalyzeData(): (r: Analysis)
      reads this
      ensures r.NoData? <==> ratios == []
      ensures r.Average? ==> r.mean * (|ratios| as real) == Sum(ratios)
    {
      if ratios == [] then NoData else Average(Sum(ratios) / (|ratios| as real))
    }

    /** The empty-list guard, then a histogram of the ratios. */
    function VisualizeData(): (r: Visualization)
      reads this
      ensures r.NoImage? <==> ratios == []
      ensures r.Histogram? ==> r.series == ratios && r.bins == HISTOGRAM_BINS
    {
      if ratios == [] then NoImage else Histogram(ratios, HISTOGRAM_BINS)
    }
  }

  /** Reading records into a table and list that satisfy the bound keeps
      the bound. */
  lemma BoundKept(m: map<string, real>, vs: seq<real>, records: seq<Record>)
    requires |m| <= |vs|
    ensures |Overwrite(m, records)| <= |vs + Values(records)|
  {
    OverwriteSize(m, records);
  }

  /** The mean lies between any lower and upper bound of the ratios. */
  lemma AverageWithinBounds(p: DrugAbuseProject, lo: real, hi: real)
    requires p.ratios != []
    requires forall i :: 0 <= i < |p.ratios| ==> lo <= p.ratios[i] <= hi
    ensures p.AnalyzeData().Average? && lo <= p.AnalyzeData().mean <= hi
  {
    var n := |p.ratios| as real;
    SumBounds(p.ratios, lo, hi);
    var mean := p.AnalyzeData().mean;
    assert mean * n == Sum(p.ratios);
    assert n * lo <= mean * n <= n * hi;
  }
}
