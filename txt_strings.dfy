/** Stage three of the DKIM record filter: cutting a record body into DNS
    character-strings of at most 255 characters (section 3.3 of RFC 1035) and
    writing them as the quoted, space-separated strings of a multi-string TXT
    record (section 3.6.2.2 of RFC 6376). */
module TxtStrings {

  /** The largest number of characters a DNS character-string holds. */
  const ChunkSize: nat := 255

  function Min(a: int, b: int): int
  {
    if a <= b then a else b
  }

  /** The slices `d[i:i+255]` for `i` in `range(start, len(d), 255)`; Python's
      slicing clamps the end of the last one to the length of `d`. */
  function ChunksFrom(d: string, start: nat): seq<string>
    decreases |d| - start
  {
    if start >= |d| then []
    else [d[start..Min(start + ChunkSize, |d|)]] + ChunksFrom(d, start + ChunkSize)
  }

  /** The chunks of the whole body, from position 0. */
  function Chunks(d: string): seq<string>
  {
    ChunksFrom(d, 0)
  }

  /** The chunks laid end to end. */
  function Concat(cs: seq<string>): string
  {
    if |cs| == 0 then "" else cs[0] + Concat(cs[1..])
  }

  /** One chunk between double quotes. No character inside is escaped. */
  function Quote(c: string): string
  {
    "\"" + c + "\""
  }

  /** What the accumulator holds after the loop has appended `"chunk" ` for
      every chunk in `cs`. */
  function Accumulated(cs: seq<string>): string
  {
    if |cs| == 0 then "" else Quote(cs[0]) + " " + Accumulated(cs[1..])
  }

  /** The quoted chunks separated by single spaces: the intended shape of the
      record value, defined independently of the accumulator. */
  function Join(cs: seq<string>): string
  {
    if |cs| == 0 then ""
    else if |cs| == 1 then Quote(cs[0])
    else Quote(cs[0]) + " " + Join(cs[1..])
  }

  /** Python's `s[:-1]`: everything but the last character, and "" for "". */
  function DropLast(s: string): string
  {
    if |s| == 0 then s else s[..|s| - 1]
  }

  /** There are `ceil((|d| - start) / 255)` chunks. */
  lemma {:induction false} ChunkCount(d: string, start: nat)
    requires start <= |d|
    ensures |ChunksFrom(d, start)| == (|d| - start + ChunkSize - 1) / ChunkSize
    decreases |d| - start
  {
    if start + ChunkSize < |d| {
      ChunkCount(d, start + ChunkSize);
    }
  }

  /** Every chunk is non-empty and at most 255 characters long, and every chunk
      except the last is exactly 255 characters long. */
  lemma {:induction false} ChunkSizes(d: string, start: nat)
    ensures forall k :: 0 <= k < |ChunksFrom(d, start)| ==> 0 < |ChunksFrom(d, start)[k]| <= ChunkSize
    ensures forall k :: 0 <= k < |ChunksFrom(d, start)| - 1 ==> |ChunksFrom(d, start)[k]| == ChunkSize
    decreases |d| - start
  {
    if start < |d| {
      ChunkSizes(d, start + ChunkSize);
      var cs := ChunksFrom(d, start);
      assert cs[1..] == ChunksFrom(d, start + ChunkSize);
      if |cs| > 1 {
        assert start + ChunkSize < |d|;
      }
    }
  }

  /** The chunk at position `k` is the slice of the body that starts at
      `start + 255 * k`. */
  lemma {:induction false} ChunkAt(d: string, start: nat, k: nat)
    requires k < |ChunksFrom(d, start)|
    ensures start + ChunkSize * k < |d|
    ensures ChunksFrom(d, start)[k]
            == d[start + ChunkSize * k .. Min(start + ChunkSize * k + ChunkSize, |d|)]
    decreases k
  {
    if k > 0 {
      ChunkAt(d, start + ChunkSize, k - 1);
    }
  }

  /** Laying the chunks end to end gives back the body from `start` on: nothing
      is lost, duplicated or reordered. */
  lemma {:induction false} ChunksConcat(d: string, start: nat)
    requires start <= |d|
    ensures Concat(ChunksFrom(d, start)) == d[start..]
    decreases |d| - start
  {
    if start < |d| {
      var cs := ChunksFrom(d, start);
      var end := Min(start + ChunkSize, |d|);
      assert cs[0] == d[start..end];
      assert cs[1..] == ChunksFrom(d, start + ChunkSize);
      if end < |d| {
        ChunksConcat(d, end);
      } else {
        assert ChunksFrom(d, start + ChunkSize) == [];
      }
      assert d[start..] == d[start..end] + d[end..];
    }
  }

  /** A body of at most 255 characters is one quoted string. */
  lemma SingleChunk(d: string)
    requires 0 < |d| <= ChunkSize
    ensures Chunks(d) == [d]
    ensures Join(Chunks(d)) == Quote(d)
  {
    assert Min(ChunkSize, |d|) == |d| && d[0..|d|] == d;
    assert ChunksFrom(d, ChunkSize) == [];
    assert Chunks(d) == [d] + [];
  }

  /** One step of the accumulator: the `"chunk" ` piece for the slice at
      `start`, then the pieces for the slices after it. */
  lemma AccumulateStep(d: string, start: nat)
    requires start < |d|
    ensures Accumulated(ChunksFrom(d, start))
            == "\"" + d[start..Min(start + ChunkSize, |d|)] + "\" "
               + Accumulated(ChunksFrom(d, start + ChunkSize))
  {
    var cs := ChunksFrom(d, start);
    var c := d[start..Min(start + ChunkSize, |d|)];
    assert cs[0] == c && cs[1..] == ChunksFrom(d, start + ChunkSize);
    assert Quote(c) + " " == "\"" + c + "\" ";
  }

  /** The accumulated text is the joined text plus one trailing space, so
      dropping the last character gives exactly the joined text. */
  lemma {:induction false} TrimmedAccumulator(cs: seq<string>)
    ensures DropLast(Accumulated(cs)) == Join(cs)
    ensures |cs| > 0 ==> Accumulated(cs) == Join(cs) + " "
    decreases |cs|
  {
    if |cs| > 0 {
      var a := Accumulated(cs);
      if |cs| > 1 {
        TrimmedAccumulator(cs[1..]);
        calc {
          a;
          Quote(cs[0]) + " " + Accumulated(cs[1..]);
          Quote(cs[0]) + " " + (Join(cs[1..]) + " ");
          (Quote(cs[0]) + " " + Join(cs[1..])) + " ";
        }
      } else {
        assert cs[1..] == [];
        assert a == Quote(cs[0]) + " " + "";
      }
      assert a[..|a| - 1] == Join(cs);
    }
  }

  /** Quoting adds two characters per chunk and separating adds one fewer space
      than there are chunks. */
  lemma {:induction false} JoinLength(cs: seq<string>)
    requires |cs| > 0
    ensures |Join(cs)| == |Concat(cs)| + 3 * |cs| - 1
    decreases |cs|
  {
    if |cs| > 1 {
      JoinLength(cs[1..]);
    }
  }

  /** None of the chunks contains a double quote. */
  predicate QuoteFree(cs: seq<string>)
  {
    forall k :: 0 <= k < |cs| ==> '"' !in cs[k]
  }

  /** A reader for the record value: the text between each pair of
      double quotes is one string, and whatever stands between a closing and the
      next opening quote is ignored. An unterminated string ends the text. */
  function ReadStrings(t: string): seq<string>
    decreases |t|, 0
  {
    if |t| == 0 then []
    else if t[0] == '"' then ReadInside(t[1..], "")
    else ReadStrings(t[1..])
  }

  /** The reader inside a quoted string, having read `acc` of it so far. */
  function ReadInside(t: string, acc: string): seq<string>
    decreases |t|, 1
  {
    if |t| == 0 then [acc]
    else if t[0] == '"' then [acc] + ReadStrings(t[1..])
    else ReadInside(t[1..], acc + [t[0]])
  }

  /** Inside a string, the reader takes everything up to the next quote. */
  lemma {:induction false} ReadInsideUpToQuote(c: string, rest: string, acc: string)
    requires '"' !in c
    ensures ReadInside(c + "\"" + rest, acc) == [acc + c] + ReadStrings(rest)
    decreases |c|
  {
    if |c| == 0 {
      assert c + "\"" + rest == "\"" + rest;
      assert acc + c == acc;
    } else {
      assert (c + "\"" + rest)[0] == c[0];
      assert (c + "\"" + rest)[1..] == c[1..] + "\"" + rest;
      ReadInsideUpToQuote(c[1..], rest, acc + [c[0]]);
      assert acc + [c[0]] + c[1..] == acc + c;
    }
  }

  /** Reading the joined text gives back the chunks, provided no chunk contains a
      double quote (the filter escapes nothing, so a quote in a chunk would end
      its string early). */
  lemma {:induction false} ReadJoin(cs: seq<string>)
    requires QuoteFree(cs)
    ensures ReadStrings(Join(cs)) == cs
    decreases |cs|
  {
    if |cs| > 0 {
      var j := Join(cs);
      var after := if |cs| == 1 then "" else " " + Join(cs[1..]);
      assert j == "\"" + (cs[0] + "\"" + after);
      assert j[1..] == cs[0] + "\"" + after;
      ReadInsideUpToQuote(cs[0], after, "");
      assert "" + cs[0] == cs[0];
      if |cs| == 1 {
        assert cs == [cs[0]];
      } else {
        assert after[1..] == Join(cs[1..]);
        assert QuoteFree(cs[1..]) by {
          forall k | 0 <= k < |cs[1..]| ensures '"' !in cs[1..][k] {
            assert cs[1..][k] == cs[k + 1];
          }
        }
        ReadJoin(cs[1..]);
        assert cs == [cs[0]] + cs[1..];
      }
    }
  }

  /** Every chunk is a slice of the body, so a body without double quotes gives
      chunks without double quotes. */
  lemma ChunksQuoteFree(d: string)
    requires '"' !in d
    ensures QuoteFree(Chunks(d))
  {
    forall k | 0 <= k < |Chunks(d)| ensures '"' !in Chunks(d)[k] {
      ChunkAt(d, 0, k);
    }
  }
}
