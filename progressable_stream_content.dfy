/**
 * The upload body with progress reporting (Scripts/REST/ProgressableStreamContent.cs).
 *
 * The class wraps another HTTP content and copies its stream to the request
 * stream through a buffer of `bufferSize` bytes, calling the progress
 * callback whenever the uploaded fraction has grown by more than 0.1 since
 * the last report. The wrapped stream is given as the chunks successive
 * Read calls return; the request stream is the sequence of Write calls.
 * Fractions are reals, with float division by zero giving +Infinity.
 */
module Content {
  import opened Shared

  /** `5 * 4096`: the buffer size of the two-argument constructor, 20 KiB. */
  const DefaultBufferSize: int := 5 * 4096

  /** `.1f`: a fraction is reported once it exceeds the last reported one by more than this. */
  const ReportStep: real := 0.1

  type PositiveInt = x: int | x > 0 witness 1

  /** One header of an HTTP content: its name and its values. */
  datatype Header = Header(name: string, values: seq<string>)

  /** The exceptions the constructor throws, with the parameter name they carry. */
  datatype ArgumentError = ArgumentNull(paramName: string) | ArgumentOutOfRange(paramName: string)

  /** The `Action<float>` progress callback, identified by a token. */
  datatype ProgressHandler = ProgressHandler(id: nat)

  /** A float quotient `uploaded / size`: a finite value, or +Infinity when `size` is 0. */
  datatype Fraction = Ratio(value: real) | PositiveInfinity

  /**
   * The wrapped HttpContent, as far as this class uses it: its headers, the
   * Content-Length it reports (absent when it cannot tell), and whether it
   * has been disposed.
   */
  class HttpContent {
    const headers: seq<Header>
    const contentLength: Option<nat>
    var disposed: bool

    constructor (headers: seq<Header>, contentLength: Option<nat>)
      ensures this.headers == headers && this.contentLength == contentLength && !disposed
    {
      this.headers := headers;
      this.contentLength := contentLength;
      disposed := false;
    }

    method Dispose()
      modifies this`disposed
      ensures disposed
    {
      disposed := true;
    }
  }

  // ---------------------------------------------------------------------------
  // The chunks of the copy loop.
  // ---------------------------------------------------------------------------

  /**
   * The chunks the copy loop accepts from the input: every read up to the
   * first one that returns nothing. Running out of reads is the end of the
   * stream, where Read returns 0.
   */
  function Accepted(input: seq<seq<byte>>): (acc: seq<seq<byte>>)
    ensures |acc| <= |input| && acc == input[..|acc|]
    ensures NonEmpty(acc)
    ensures |acc| < |input| ==> input[|acc|] == []
  {
    if input == [] || input[0] == [] then []
    else [input[0]] + Accepted(input[1..])
  }

  /** Where the first `i` reads are non-empty and read `i` is empty or missing, those `i` reads are accepted. */
  lemma {:induction false} AcceptedPrefix(input: seq<seq<byte>>, i: nat)
    requires i <= |input|
    requires NonEmpty(input[..i])
    requires i == |input| || input[i] == []
    ensures Accepted(input) == input[..i]
  {
    if i > 0 {
      assert input[..i][0] == input[0];
      assert input[1..][..i - 1] == input[..i][1..];
      AcceptedPrefix(input[1..], i - 1);
      assert input[..i] == [input[0]] + input[1..][..i - 1];
    }
  }

  /** Every chunk holds at least one byte. */
  predicate NonEmpty(chunks: seq<seq<byte>>)
  {
    forall k :: 0 <= k < |chunks| ==> chunks[k] != []
  }

  /** The bytes of the chunks, in order. */
  function Flatten(chunks: seq<seq<byte>>): seq<byte>
  {
    if chunks == [] then [] else Flatten(chunks[..|chunks| - 1]) + chunks[|chunks| - 1]
  }

  /** Flattening with one more chunk at the end appends its bytes. */
  lemma FlattenSnoc(chunks: seq<seq<byte>>, c: seq<byte>)
    ensures Flatten(chunks + [c]) == Flatten(chunks) + c
  {
    assert (chunks + [c])[..|chunks|] == chunks;
  }

  // ---------------------------------------------------------------------------
  // The progress fraction and the threshold.
  // ---------------------------------------------------------------------------

  /**
   * `(float)uploaded / (float)size` for a positive `uploaded`: +Infinity
   * exactly when `size` is 0, otherwise the positive quotient.
   */
  function FractionOf(uploaded: nat, size: nat): (f: Fraction)
    requires uploaded > 0
    ensures f.PositiveInfinity? <==> size == 0
    ensures f.Ratio? ==> f.value > 0.0 && f.value * size as real == uploaded as real
  {
    if size == 0 then PositiveInfinity else Ratio(uploaded as real / size as real)
  }

  /**
   * `pctUploaded - lastPct > .1f`. Infinity minus a finite value is
   * +Infinity, which passes; Infinity minus Infinity is NaN and a finite
   * value minus Infinity is -Infinity, which do not. So nothing passes
   * after +Infinity was reported.
   */
  function Exceeds(pct: Fraction, last: Fraction): (b: bool)
    ensures b ==> last.Ratio?
    ensures pct.PositiveInfinity? && last.Ratio? ==> b
    ensures pct.Ratio? && last.Ratio? ==> (b <==> pct.value > last.value + ReportStep)
  {
    match (pct, last)
    case (Ratio(a), Ratio(b)) => a - b > ReportStep
    case (PositiveInfinity, Ratio(_)) => true
    case (_, PositiveInfinity) => false
  }

  /** The fractions the copy loop computes: after each chunk, all bytes uploaded so far over `size`. */
  function Fractions(chunks: seq<seq<byte>>, size: nat): (fr: seq<Fraction>)
    requires NonEmpty(chunks)
    ensures |fr| == |chunks|
  {
    if chunks == [] then []
    else Fractions(chunks[..|chunks| - 1], size) + [FractionOf(|Flatten(chunks)|, size)]
  }

  /** One more chunk adds one fraction: everything uploaded, that chunk included, over `size`. */
  lemma FractionsSnoc(chunks: seq<seq<byte>>, c: seq<byte>, size: nat)
    requires NonEmpty(chunks)
    requires c != []
    ensures |Flatten(chunks)| + |c| > 0
    ensures Fractions(chunks + [c], size) == Fractions(chunks, size) + [FractionOf(|Flatten(chunks)| + |c|, size)]
  {
    assert (chunks + [c])[..|chunks|] == chunks;
    FlattenSnoc(chunks, c);
  }

  /**
   * One pass of the copy loop: the chunk `c` is added to the upload, and the
   * fraction computed after it is reported exactly when it exceeds the last
   * reported value, which it then replaces.
   */
  lemma CopyStep(chunks: seq<seq<byte>>, c: seq<byte>, size: nat)
    requires NonEmpty(chunks)
    requires c != []
    ensures NonEmpty(chunks + [c])
    ensures |Flatten(chunks + [c])| == |Flatten(chunks)| + |c|
    ensures var pct := FractionOf(|Flatten(chunks)| + |c|, size);
      var last := LastReported(Fractions(chunks, size), Ratio(0.0));
      && Reported(Fractions(chunks + [c], size), Ratio(0.0))
        == Reported(Fractions(chunks, size), Ratio(0.0)) + (if Exceeds(pct, last) then [pct] else [])
      && LastReported(Fractions(chunks + [c], size), Ratio(0.0)) == (if Exceeds(pct, last) then pct else last)
  {
    FractionsSnoc(chunks, c, size);
    FlattenSnoc(chunks, c);
    ReportedSnoc(Fractions(chunks, size), FractionOf(|Flatten(chunks)| + |c|, size), Ratio(0.0));
    assert forall k :: 0 <= k < |chunks| ==> (chunks + [c])[k] == chunks[k];
  }

  /**
   * The fraction computed after chunk j is the quotient of everything
   * uploaded so far, the first j + 1 chunks, by the size.
   */
  lemma {:induction false} FractionsAt(chunks: seq<seq<byte>>, size: nat, j: nat)
    requires NonEmpty(chunks)
    requires j < |chunks|
    ensures |Flatten(chunks[..j + 1])| > 0
    ensures Fractions(chunks, size)[j] == FractionOf(|Flatten(chunks[..j + 1])|, size)
  {
    var init := chunks[..|chunks| - 1];
    if j == |chunks| - 1 {
      assert chunks[..j + 1] == chunks;
    } else {
      FractionsAt(init, size, j);
      assert init[..j + 1] == chunks[..j + 1];
    }
  }

  /** Finite values in (low, high], in strictly increasing order. */
  predicate Rising(fr: seq<Fraction>, low: real, high: real)
  {
    && (forall k :: 0 <= k < |fr| ==> fr[k].Ratio? && low < fr[k].value <= high)
    && (forall j, k :: 0 <= j < k < |fr| ==> fr[j].value < fr[k].value)
  }

  lemma QuotientIncreases(a: nat, b: nat, d: nat)
    requires a < b && d > 0
    ensures a as real / d as real < b as real / d as real
  {
    var q := 1.0 / d as real;
    assert a as real / d as real == a as real * q;
    assert b as real / d as real == b as real * q;
  }

  /**
   * With a known length the computed fractions are positive, strictly
   * increase (every chunk is non-empty), and the last is the whole upload
   * over the size.
   */
  lemma {:induction false} FractionsIncrease(chunks: seq<seq<byte>>, size: nat)
    requires NonEmpty(chunks)
    requires size > 0
    ensures Rising(Fractions(chunks, size), 0.0, |Flatten(chunks)| as real / size as real)
  {
    if chunks != [] {
      var init := chunks[..|chunks| - 1];
      var fr := Fractions(chunks, size);
      var fr' := Fractions(init, size);
      FractionsIncrease(init, size);
      var high' := |Flatten(init)| as real / size as real;
      var high := |Flatten(chunks)| as real / size as real;
      assert fr == fr' + [Ratio(high)];
      QuotientIncreases(|Flatten(init)|, |Flatten(chunks)|, size);
      QuotientIncreases(0, |Flatten(chunks)|, size);
      forall k | 0 <= k < |fr|
        ensures fr[k].Ratio? && 0.0 < fr[k].value <= high
      {
        if k < |fr'| {
          assert fr[k] == fr'[k];
        }
      }
      forall j, k | 0 <= j < k < |fr|
        ensures fr[j].value < fr[k].value
      {
        assert fr[j] == fr'[j];
        if k < |fr'| {
          assert fr[k] == fr'[k];
        }
      }
    }
  }

  /** `lastPct` after the fractions `fr` were computed, starting from `start`. */
  function LastReported(fr: seq<Fraction>, start: Fraction): Fraction
  {
    if fr == [] then start
    else
      var last := LastReported(fr[..|fr| - 1], start);
      if Exceeds(fr[|fr| - 1], last) then fr[|fr| - 1] else last
  }

  /** The values passed to the progress callback while the fractions `fr` are computed in order. */
  function Reported(fr: seq<Fraction>, start: Fraction): (r: seq<Fraction>)
    ensures |r| <= |fr|
  {
    if fr == [] then []
    else
      var f := fr[|fr| - 1];
      Reported(fr[..|fr| - 1], start) + (if Exceeds(f, LastReported(fr[..|fr| - 1], start)) then [f] else [])
  }

  /** The positions in `fr` at which Reported makes its reports. */
  function ReportPoints(fr: seq<Fraction>, start: Fraction): seq<nat>
  {
    if fr == [] then []
    else
      var f := fr[|fr| - 1];
      ReportPoints(fr[..|fr| - 1], start) + (if Exceeds(f, LastReported(fr[..|fr| - 1], start)) then [|fr| - 1] else [])
  }

  /**
   * One more fraction is reported exactly when it exceeds the last reported
   * value, and then it becomes the last reported value.
   */
  lemma ReportedSnoc(fr: seq<Fraction>, f: Fraction, start: Fraction)
    ensures Reported(fr + [f], start)
      == Reported(fr, start) + (if Exceeds(f, LastReported(fr, start)) then [f] else [])
    ensures LastReported(fr + [f], start)
      == if Exceeds(f, LastReported(fr, start)) then f else LastReported(fr, start)
  {
    assert (fr + [f])[..|fr|] == fr;
  }

  /** `lastPct` is the last value reported, or the starting value while nothing has been reported. */
  lemma {:induction false} LastReportedIsLastReport(fr: seq<Fraction>, start: Fraction)
    ensures var r := Reported(fr, start);
      LastReported(fr, start) == if r == [] then start else r[|r| - 1]
  {
    if fr != [] {
      LastReportedIsLastReport(fr[..|fr| - 1], start);
    }
  }

  /** Each value exceeds the one before it, and the first exceeds `start`. */
  predicate Steps(r: seq<Fraction>, start: Fraction)
  {
    && (r != [] ==> Exceeds(r[0], start))
    && (forall k :: 0 < k < |r| ==> Exceeds(r[k], r[k - 1]))
  }

  /**
   * Each report exceeds the one before it (the first: the starting value) by
   * more than 0.1, so finite reports strictly increase.
   */
  lemma {:induction false} ReportsIncrease(fr: seq<Fraction>, start: Fraction)
    ensures Steps(Reported(fr, start), start)
  {
    if fr != [] {
      var init := fr[..|fr| - 1];
      var f := fr[|fr| - 1];
      var r' := Reported(init, start);
      ReportsIncrease(init, start);
      LastReportedIsLastReport(init, start);
      if Exceeds(f, LastReported(init, start)) {
        var r := r' + [f];
        forall k | 0 < k < |r|
          ensures Exceeds(r[k], r[k - 1])
        {
          if k < |r'| {
            assert r[k] == r'[k] && r[k - 1] == r'[k - 1];
          }
        }
        if r' != [] {
          assert r[0] == r'[0];
        }
      }
    }
  }

  /** `r` is the subsequence of `fr` at the strictly increasing positions `points`. */
  predicate Picked(r: seq<Fraction>, fr: seq<Fraction>, points: seq<nat>)
  {
    && |points| == |r|
    && (forall k :: 0 <= k < |r| ==> points[k] < |fr| && fr[points[k]] == r[k])
    && (forall k :: 0 < k < |r| ==> points[k - 1] < points[k])
  }

  /**
   * Every report is one of the computed fractions, taken in order: report k
   * is the fraction at position points[k], and the positions increase.
   */
  lemma {:induction false} ReportsAreFractions(fr: seq<Fraction>, start: Fraction)
    ensures Picked(Reported(fr, start), fr, ReportPoints(fr, start))
  {
    if fr != [] {
      var init := fr[..|fr| - 1];
      var f := fr[|fr| - 1];
      ReportsAreFractions(init, start);
      var r' := Reported(init, start);
      var points' := ReportPoints(init, start);
      var r := Reported(fr, start);
      var points := ReportPoints(fr, start);
      forall k | 0 <= k < |r'|
        ensures points[k] < |fr| && fr[points[k]] == r[k]
      {
        assert points[k] == points'[k] && r[k] == r'[k];
        assert fr[points'[k]] == init[points'[k]];
      }
      forall k | 0 < k < |r'|
        ensures points[k - 1] < points[k]
      {
        assert points[k] == points'[k] && points[k - 1] == points'[k - 1];
      }
    }
  }

  /**
   * Without a known length every fraction is +Infinity: the first chunk is
   * reported (as +Infinity) and nothing after it.
   */
  lemma {:induction false} UnknownLengthReportsOnce(chunks: seq<seq<byte>>)
    requires NonEmpty(chunks)
    ensures Reported(Fractions(chunks, 0), Ratio(0.0)) == (if chunks == [] then [] else [PositiveInfinity])
    ensures LastReported(Fractions(chunks, 0), Ratio(0.0)) == (if chunks == [] then Ratio(0.0) else PositiveInfinity)
  {
    if chunks != [] {
      var init := chunks[..|chunks| - 1];
      UnknownLengthReportsOnce(init);
      var fr := Fractions(chunks, 0);
      assert fr[..|fr| - 1] == Fractions(init, 0);
    }
  }

  /** `n` zero bytes. */
  function Bytes(n: nat): (b: seq<byte>)
    ensures |b| == n
  {
    seq(n, _ => 0)
  }

  /** Chunks of 50, 45 and 5 bytes of a 100-byte upload give the fractions 0.5, 0.95 and 1.0. */
  lemma ExampleFractions()
    ensures Fractions([Bytes(50), Bytes(45), Bytes(5)], 100) == [Ratio(0.5), Ratio(0.95), Ratio(1.0)]
  {
    var c1, c2, c3 := Bytes(50), Bytes(45), Bytes(5);
    FractionsSnoc([], c1, 100);
    FlattenSnoc([], c1);
    assert [] + [c1] == [c1];
    FractionsSnoc([c1], c2, 100);
    FlattenSnoc([c1], c2);
    assert [c1] + [c2] == [c1, c2];
    FractionsSnoc([c1, c2], c3, 100);
    assert [c1, c2] + [c3] == [c1, c2, c3];
  }

  /**
   * The same upload reports 0.5 and 0.95 but never 1.0: completion is
   * reported only when the last step is larger than 0.1.
   */
  lemma CompletionMayGoUnreported()
    ensures Reported(Fractions([Bytes(50), Bytes(45), Bytes(5)], 100), Ratio(0.0)) == [Ratio(0.5), Ratio(0.95)]
  {
    ExampleFractions();
    var f1, f2, f3 := Ratio(0.5), Ratio(0.95), Ratio(1.0);
    var start := Ratio(0.0);
    assert Reported([f1], start) == [f1] && LastReported([f1], start) == f1 by {
      assert Exceeds(f1, start);
      ReportedSnoc([], f1, start);
      assert [] + [f1] == [f1];
    }
    assert Reported([f1, f2], start) == [f1, f2] && LastReported([f1, f2], start) == f2 by {
      assert Exceeds(f2, f1);
      ReportedSnoc([f1], f2, start);
      assert [f1] + [f2] == [f1, f2];
    }
    assert Reported([f1, f2, f3], start) == [f1, f2] by {
      assert !Exceeds(f3, f2);
      ReportedSnoc([f1, f2], f3, start);
      assert [f1, f2] + [f3] == [f1, f2, f3];
    }
  }

  // ---------------------------------------------------------------------------
  // The class.
  // ---------------------------------------------------------------------------

  class ProgressableStreamContent {
    const content: HttpContent
    const bufferSize: PositiveInt
    const progress: Option<ProgressHandler>
    /** This content's own headers, filled from the wrapped content's. */
    var headers: seq<Header>

    /** The constructor body after its checks: stores the arguments and copies every header, in order. */
    constructor (content: HttpContent, bufferSize: PositiveInt, progress: Option<ProgressHandler>)
      ensures this.content == content && this.bufferSize == bufferSize && this.progress == progress
      ensures headers == content.headers
    {
      this.content := content;
      this.bufferSize := bufferSize;
      this.progress := progress;
      headers := [];
      new;
      var i := 0;
      while i < |content.headers|
        invariant 0 <= i <= |content.headers|
        invariant headers == content.headers[..i]
      {
        headers := headers + [content.headers[i]];
        assert content.headers[..i + 1] == content.headers[..i] + [content.headers[i]];
        i := i + 1;
      }
      assert content.headers[..i] == content.headers;
    }

    /**
     * `new ProgressableStreamContent(content, bufferSize, progress)`: a null
     * content throws ArgumentNullException("content"), else a non-positive
     * buffer size throws ArgumentOutOfRangeException("bufferSize"); otherwise
     * the new content holds the arguments unchanged.
     */
    static method Create(content: HttpContent?, bufferSize: int, progress: Option<ProgressHandler>)
      returns (r: Result<ProgressableStreamContent, ArgumentError>)
      ensures content == null ==> r == Failure(ArgumentNull("content"))
      ensures content != null && bufferSize <= 0 ==> r == Failure(ArgumentOutOfRange("bufferSize"))
      ensures content != null && bufferSize > 0 ==>
        && r.Success? && fresh(r.value)
        && r.value.content == content && r.value.bufferSize == bufferSize && r.value.progress == progress
        && r.value.headers == content.headers
    {
      if content == null {
        return Failure(ArgumentNull("content"));
      }
      if bufferSize <= 0 {
        return Failure(ArgumentOutOfRange("bufferSize"));
      }
      var c := new ProgressableStreamContent(content, bufferSize, progress);
      return Success(c);
    }

    /** The two-argument constructor: the same, with a 20480-byte buffer. */
    static method CreateWithDefaultBuffer(content: HttpContent?, progress: Option<ProgressHandler>)
      returns (r: Result<ProgressableStreamContent, ArgumentError>)
      ensures content == null ==> r == Failure(ArgumentNull("content"))
      ensures content != null ==>
        && r.Success? && fresh(r.value)
        && r.value.content == content && r.value.bufferSize == 20480 && r.value.progress == progress
        && r.value.headers == content.headers
    {
      r := Create(content, DefaultBufferSize, progress);
    }

    /**
     * TryComputeLength: always succeeds, with the wrapped content's
     * Content-Length, or 0 when it has none.
     */
    function TryComputeLength(): (r: (bool, nat))
      ensures r.0
      ensures content.contentLength.Some? ==> r.1 == content.contentLength.value
      ensures content.contentLength.None? ==> r.1 == 0
    {
      (true, if content.contentLength.Some? then content.contentLength.value else 0)
    }

    /**
     * The copy loop of SerializeToStreamAsync. `input` holds the chunks
     * successive Read calls deliver (at most a buffer each). Every accepted
     * chunk is written whole, in order; `uploaded` counts the bytes written;
     * the callback, when there is one, receives exactly the reported
     * fractions.
     */
    method SerializeToStream(input: seq<seq<byte>>) returns (writes: seq<seq<byte>>, uploaded: nat, reports: seq<Fraction>)
      requires forall k :: 0 <= k < |input| ==> |input[k]| <= bufferSize
      ensures writes == Accepted(input)
      ensures forall k :: 0 <= k < |writes| ==> 1 <= |writes[k]| <= bufferSize
      ensures uploaded == |Flatten(writes)|
      ensures reports == if progress.Some? then Reported(Fractions(writes, TryComputeLength().1), Ratio(0.0)) else []
    {
      var buffer := new byte[bufferSize](_ => 0);
      var (_, size) := TryComputeLength();
      uploaded := 0;
      var lastPct := Ratio(0.0);
      writes := [];
      reports := [];
      var i := 0;
      while true
        invariant 0 <= i <= |input|
        invariant writes == input[..i]
        invariant NonEmpty(writes)
        invariant uploaded == |Flatten(writes)|
        invariant lastPct == LastReported(Fractions(writes, size), Ratio(0.0))
        invariant reports == if progress.Some? then Reported(Fractions(writes, size), Ratio(0.0)) else []
        decreases |input| - i
      {
        var length := if i < |input| then |input[i]| else 0;
        if length <= 0 {
          break;
        }
        var chunk := Read(buffer, input[i]);
        CopyStep(writes, chunk, size);
        uploaded := uploaded + length;
        var pctUploaded := FractionOf(uploaded, size);
        if Exceeds(pctUploaded, lastPct) {
          if progress.Some? {
            reports := reports + [pctUploaded];
          }
          lastPct := pctUploaded;
        }
        writes := writes + [chunk];
        TakeSnoc(input, i);
        i := i + 1;
      }
      AcceptedPrefix(input, i);
    }

    /**
     * `sinput.Read(buffer, 0, buffer.Length)` delivering `chunk`: it lands at
     * the start of the buffer, and those bytes are what the loop writes out.
     */
    static method Read(buffer: array<byte>, chunk: seq<byte>) returns (filled: seq<byte>)
      requires |chunk| <= buffer.Length
      modifies buffer
      ensures buffer[..|chunk|] == chunk
      ensures filled == chunk
    {
      forall k | 0 <= k < |chunk| {
        buffer[k] := chunk[k];
      }
      filled := buffer[..|chunk|];
    }

    /** Dispose(disposing): with `disposing` the wrapped content is disposed too. */
    method Dispose(disposing: bool)
      modifies content`disposed
      ensures content.disposed == (old(content.disposed) || disposing)
    {
      if disposing {
        content.Dispose();
      }
    }
  }
}
