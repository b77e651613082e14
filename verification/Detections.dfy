/** Optional values and error results, for Python's None and exceptions. */
module Results {
  datatype Option<+T> = None | Some(value: T)

  datatype Result<+T, +E> = Success(value: T) | Failure(error: E)
}

/** The sensitive-entity spans that detectors produce. */
module Detections {
  import opened Results
  import opened Intervals

  datatype Detection = Detection(
    entityType: string,
    start: int,
    end: int,
    text: string,
    confidence: real,
    tier: int,
    detector: string,
    ruleId: Option<string>)
  {
    /** What the constructor checks. */
    predicate Valid() {
      0.0 <= confidence <= 1.0 && 0 <= start < end
    }
  }

  function SpanOf(d: Detection): Span {
    Span(d.start, d.end)
  }

  /** d's span lies inside the text and d's text is what stands there. */
  predicate SpanMatches(original: string, d: Detection) {
    if d.start < 0 || d.end > |original| || d.end <= d.start then false
    else original[d.start..d.end] == d.text
  }

  /** In text order, each detection ending before the next one starts. */
  ghost predicate Disjoint(ds: seq<Detection>) {
    forall i, j :: 0 <= i < j < |ds| ==> ds[i].end <= ds[j].start
  }
}
