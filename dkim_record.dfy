/** The DKIM record filter: turns a PEM public key into the value of a DKIM
    DNS TXT record. The payload is the key without its armour and whitespace;
    the body is the tag list `v=DKIM1; k=rsa; p=<payload>` of section 3.6.1 of
    RFC 6376; the value is that body cut into quoted strings of at most 255
    characters. */
module DkimRecord {
  import opened PemArmour
  import opened TxtStrings

  /** The key type tag is fixed: the filter only ever writes RSA records. */
  const KeyType: string := "rsa"

  /** Everything in the body before the payload. */
  const RecordPrefix: string := "v=DKIM1; k=rsa; p="

  /** The body: the version tag, then the key type tag, then the payload as the
      public-key tag, separated by a semicolon and a space. */
  function Body(p: string): string
  {
    "v=DKIM1; k=" + KeyType + "; p=" + p
  }

  /** The record value the filter returns for `pubkey`. */
  function Record(pubkey: string): string
  {
    Join(Chunks(Body(Strip(pubkey))))
  }

  /** The body is the fixed 18-character prefix followed by the payload, so the
      payload can be read back from it and the key type is always `rsa`. */
  lemma BodyLayout(p: string)
    ensures Body(p) == RecordPrefix + p
    ensures |RecordPrefix| == 18
    ensures Body(p)[..18] == RecordPrefix && Body(p)[18..] == p
  {
    assert Body(p) == RecordPrefix + p;
  }

  /** The filter. The accumulator grows by one `"chunk" ` per step of
      `range(0, len(dkim), 255)`, and its last character is cut off at the end. */
  method DkimRecord(pubkey: string) returns (out: string)
    ensures out == Record(pubkey)
  {
    var keyType := KeyType;
    var p := Strip(pubkey);
    var dkim := "v=DKIM1; k=" + keyType + "; p=" + p;
    var acc := "";
    var i: nat := 0;
    while i < |dkim|
      invariant acc + Accumulated(ChunksFrom(dkim, i)) == Accumulated(Chunks(dkim))
      decreases |dkim| - i
    {
      var chunk := "\"" + dkim[i..Min(i + ChunkSize, |dkim|)] + "\" ";
      AccumulateStep(dkim, i);
      assert acc + chunk + Accumulated(ChunksFrom(dkim, i + ChunkSize))
             == acc + Accumulated(ChunksFrom(dkim, i));
      acc := acc + chunk;
      i := i + ChunkSize;
    }
    out := DropLast(acc);
    TrimmedAccumulator(Chunks(dkim));
  }

  /** The shape of every record value: the body is cut into
      `ceil(|body| / 255)` chunks, at least one, each non-empty and at most 255
      characters long, all but the last exactly 255; laid end to end they are the
      body; the value is the chunks quoted and separated by single spaces, so it
      is `3 * n - 1` characters longer than the body. */
  lemma RecordShape(pubkey: string)
    ensures var d := Body(Strip(pubkey)); var cs := Chunks(d);
      && d == RecordPrefix + Strip(pubkey)
      && |cs| == (|d| + ChunkSize - 1) / ChunkSize
      && |cs| >= 1
      && (forall k :: 0 <= k < |cs| ==> 0 < |cs[k]| <= ChunkSize)
      && (forall k :: 0 <= k < |cs| - 1 ==> |cs[k]| == ChunkSize)
      && Concat(cs) == d
      && Record(pubkey) == Join(cs)
      && |Record(pubkey)| == |d| + 3 * |cs| - 1
      && |Record(pubkey)| <= |pubkey| + |RecordPrefix| + 3 * |cs| - 1
  {
    var d := Body(Strip(pubkey));
    BodyLayout(Strip(pubkey));
    ChunkCount(d, 0);
    ChunkSizes(d, 0);
    ChunksConcat(d, 0);
    assert d[0..] == d;
    JoinLength(Chunks(d));
  }

  /** Chunking applies to the whole body, and the prefix is shorter than one
      chunk: the value always opens with the complete quoted prefix. */
  lemma RecordStartsWithPrefix(pubkey: string)
    ensures |Record(pubkey)| > 19
    ensures Record(pubkey)[..19] == "\"" + RecordPrefix
  {
    var d := Body(Strip(pubkey));
    BodyLayout(Strip(pubkey));
    var cs := Chunks(d);
    ChunkAt(d, 0, 0);
    assert cs[0] == d[..Min(ChunkSize, |d|)];
    assert cs[0][..18] == RecordPrefix;
    var r := Record(pubkey);
    assert r[..1 + |cs[0]|] == "\"" + cs[0];
  }

  /** A key that is nothing but armour lines and whitespace, the empty key
      among them, gives the bare prefix as a single quoted string. */
  lemma ArmourOnlyRecord(pubkey: string)
    requires OnlyArmour(pubkey)
    ensures Record(pubkey) == "\"v=DKIM1; k=rsa; p=\""
  {
    StripEmpty(pubkey);
    BodyLayout("");
    assert Body("") == RecordPrefix;
    SingleChunk(RecordPrefix);
    assert Record(pubkey) == Quote(RecordPrefix);
  }

  /** The empty key gives the bare prefix. */
  lemma EmptyKeyRecord()
    ensures Record("") == "\"v=DKIM1; k=rsa; p=\""
  {
    ArmourOnlyRecord("");
  }

  /** Base64 text: no whitespace and no '-'. */
  predicate PlainLine(line: string)
  {
    NoSpace(line) && '-' !in line
  }

  /** Lines of text, each ended by a newline, followed by `t`. */
  function LinesThen(lines: seq<string>, t: string): string
  {
    if |lines| == 0 then t else lines[0] + ("\n" + LinesThen(lines[1..], t))
  }

  /** A public key in the usual PEM layout: the header line, the base64 lines and
      the footer line, each ended by a newline. */
  function PemText(lines: seq<string>): string
  {
    BeginMarker + ("\n" + LinesThen(lines, EndMarker + "\n"))
  }

  /** The scan keeps the base64 lines and drops their newlines, whatever follows. */
  lemma {:induction false} StripLines(lines: seq<string>, t: string)
    requires forall k :: 0 <= k < |lines| ==> PlainLine(lines[k])
    ensures Strip(LinesThen(lines, t)) == Concat(lines) + Strip(t)
    decreases |lines|
  {
    if |lines| > 0 {
      var rest := LinesThen(lines[1..], t);
      assert forall k :: 0 <= k < |lines[1..]| ==> PlainLine(lines[1..][k]) by {
        forall k | 0 <= k < |lines[1..]| ensures PlainLine(lines[1..][k]) {
          assert lines[1..][k] == lines[k + 1];
        }
      }
      calc {
        Strip(LinesThen(lines, t));
        Strip(lines[0] + ("\n" + rest));
        { StripPlainPrefix(lines[0], "\n" + rest); }
        lines[0] + Strip("\n" + rest);
        { assert BeginMarker[0] == '-' && EndMarker[0] == '-';
          StripCharacter('\n', rest); }
        lines[0] + Strip(rest);
        { StripLines(lines[1..], t); }
        lines[0] + (Concat(lines[1..]) + Strip(t));
        Concat(lines) + Strip(t);
      }
    } else {
      assert Concat(lines) + Strip(t) == Strip(t);
    }
  }

  /** A key in PEM layout strips to exactly its base64 lines laid end to end. */
  lemma StripPemText(lines: seq<string>)
    requires forall k :: 0 <= k < |lines| ==> PlainLine(lines[k])
    ensures Strip(PemText(lines)) == Concat(lines)
  {
    StripHeaderLine(LinesThen(lines, EndMarker + "\n"));
    StripLines(lines, EndMarker + "\n");
    StripFooterLine();
  }

  /** The short armoured key `-----BEGIN PUBLIC KEY-----\nAAAA\n-----END PUBLIC KEY-----\n`
      strips to its one base64 line. */
  lemma ShortKeyPayload(key: string)
    requires key == PemText(["AAAA"])
    ensures Strip(key) == "AAAA"
  {
    var lines := ["AAAA"];
    assert PlainLine(lines[0]);
    StripPemText(lines);
    assert Concat(lines) == "AAAA" by {
      assert lines[1..] == [];
    }
  }

  /** A short armoured key gives one quoted string. */
  lemma ShortKeyRecord(key: string)
    requires key == PemText(["AAAA"])
    ensures Record(key) == "\"v=DKIM1; k=rsa; p=AAAA\""
  {
    ShortKeyPayload(key);
    BodyLayout("AAAA");
    SingleChunk(Body("AAAA"));
    assert Record(key) == Quote(RecordPrefix + "AAAA");
  }

  /** What a resolver reassembles: reading the quoted strings of the value and
      concatenating them gives back the body, for every key without a double
      quote (the filter escapes nothing). */
  lemma RecordReadBack(pubkey: string)
    requires '"' !in pubkey
    ensures Concat(ReadStrings(Record(pubkey))) == Body(Strip(pubkey))
  {
    var d := Body(Strip(pubkey));
    BodyQuoteFree(pubkey);
    ChunksQuoteFree(d);
    ReadJoin(Chunks(d));
    ChunksConcat(d, 0);
    assert d[0..] == d;
  }

  /** Neither the prefix nor, for a key without a double quote, the payload
      contains a double quote. */
  lemma BodyQuoteFree(pubkey: string)
    requires '"' !in pubkey
    ensures '"' !in Body(Strip(pubkey))
  {
    var p := Strip(pubkey);
    StripKeepsOtherCharacters(pubkey, '"');
    assert '"' !in p by {
      assert multiset(p)['"'] == multiset(pubkey)['"'] == 0;
    }
    BodyLayout(p);
    assert '"' !in RecordPrefix;
  }
}
