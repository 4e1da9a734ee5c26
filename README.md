# DKIM record filter, modelled in Dafny

This project models the Ansible filter `dkim_record`
(`FilterModule.dkim_record`). The filter turns a PEM-encoded public key into the
value of a DKIM DNS TXT record, in three steps:

1. **Strip.** A single `re.sub` pass with the pattern
   `-----BEGIN PUBLIC KEY-----|-----END PUBLIC KEY-----|\s` and an empty
   replacement. The model scans left to right. At each position it drops the
   whole BEGIN marker, else the whole END marker, else one whitespace character;
   otherwise it keeps the character (`PemArmour.Strip`).
2. **Body.** It formats the tag list `v=DKIM1; k=rsa; p=<payload>`, the key record
   of section 3.6.1 of RFC 6376 (`DkimRecord.Body`). The key type is always `rsa`.
3. **Chunk.** It cuts the whole body into slices `dkim[i:i+255]` for `i` in
   `range(0, len(dkim), 255)`. The limit is the DNS character-string limit of
   section 3.3 of RFC 1035 (`TxtStrings.ChunksFrom`). The filter appends
   `"slice" ` to an accumulator for each slice and drops the final character
   (`TxtStrings.Accumulated`, `TxtStrings.DropLast`). The result is the slices
   quoted and separated by single spaces (`TxtStrings.Join`). That is the
   multi-string TXT form of section 3.6.2.2 of RFC 6376.

Files:

- `pem_armour.dfy` holds module `PemArmour`: the strip step and its lemmas.
- `txt_strings.dfy` holds module `TxtStrings`: the 255-character chunking, the
  quoting, the accumulator and the joined form, plus a reader for quoted strings.
- `dkim_record.dfy` holds module `DkimRecord`. It contains the body, the pure
  specification `Record`, the method `DkimRecord`, the end-to-end lemmas, and
  the usual PEM layout (header line, base64 lines, footer line).

The strip step is a pure function. The filter's accumulator loop is modelled as
a method. That method's `while` loop steps by 255, like `range`, and its
invariant relates the accumulator to the chunks consumed so far.

Whitespace is the exact set of characters that `\s` matches in a Python 3 `str`
pattern, the characters for which `str.isspace` holds: U+0009–U+000D,
U+001C–U+0020, U+0085, U+00A0, U+1680, U+2000–U+200A, U+2028, U+2029, U+202F,
U+205F and U+3000.

Strip is idempotent (`PemArmour.StripIdempotent`). Both markers contain a space.
The stripped text has no whitespace, so it cannot contain a marker, and a second
pass leaves it unchanged. For the same reason, "no whitespace" alone is exactly
the condition under which a key comes back unchanged (`PemArmour.StripIdentity`).

## Model

| member | source | states |
|---|---|---|
| `PemArmour.IsSpace` | roles/keys/filter_plugins/dkim_record.py:21 | Definition without a contract: the `\s` class of the pattern, as Python 3 matches it in a `str`. `PemArmour.Strip`, `PemArmour.StripIdentity` and `PemArmour.StripKeepsOtherCharacters` state what it means for the payload. |
| `PemArmour.Strip` | roles/keys/filter_plugins/dkim_record.py:21 | The payload contains no whitespace character and is no longer than the key. |
| `PemArmour.StripIsSubsequence` | roles/keys/filter_plugins/dkim_record.py:21 | The payload is the key with some characters deleted and the rest kept in order. |
| `PemArmour.StripIdentity` | roles/keys/filter_plugins/dkim_record.py:21 | A key comes back unchanged if and only if it contains no whitespace. |
| `PemArmour.StripIdempotent` | roles/keys/filter_plugins/dkim_record.py:21 | Stripping the payload again changes nothing. |
| `PemArmour.NoMarkerWithoutSpace` | roles/keys/filter_plugins/dkim_record.py:21 | Text without whitespace starts with neither marker. |
| `PemArmour.MarkersExclusive` | roles/keys/filter_plugins/dkim_record.py:21 | At any position at most one of the three alternatives of the pattern can match. |
| `PemArmour.StripEmpty` | roles/keys/filter_plugins/dkim_record.py:21 | The payload is empty if and only if the key consists only of armour lines and whitespace. |
| `PemArmour.StripKeepsOtherCharacters` | roles/keys/filter_plugins/dkim_record.py:21 | A character that is not whitespace and occurs in neither marker (lower-case letters, digits, `+`, `/`, `=`, `"`, …) occurs in the payload exactly as often as in the key. |
| `PemArmour.StripBeginMarker` | roles/keys/filter_plugins/dkim_record.py:21 | A leading BEGIN marker is removed whole. |
| `PemArmour.StripEndMarker` | roles/keys/filter_plugins/dkim_record.py:21 | A leading END marker is removed whole. |
| `PemArmour.StripCharacter` | roles/keys/filter_plugins/dkim_record.py:21 | A leading character at which neither marker starts (a `-` included) is dropped when it is whitespace and kept otherwise. |
| `PemArmour.StripPlainPrefix` | roles/keys/filter_plugins/dkim_record.py:21 | Text without whitespace and without `-` passes through unchanged, whatever follows it. |
| `PemArmour.StripHeaderLine` | roles/keys/filter_plugins/dkim_record.py:21 | The header line and its newline are removed. |
| `PemArmour.StripFooterLine` | roles/keys/filter_plugins/dkim_record.py:21 | The footer line and its newline leave nothing. |
| `DkimRecord.StripLines` | roles/keys/filter_plugins/dkim_record.py:21 | Newline-terminated base64 lines strip to the lines laid end to end. |
| `DkimRecord.StripPemText` | roles/keys/filter_plugins/dkim_record.py:21 | A key in PEM layout (header, base64 lines, footer) strips to exactly its base64 text. |
| `DkimRecord.Body` | roles/keys/filter_plugins/dkim_record.py:20-22 | Definition without a contract: the body formatted from the key type `rsa` and the payload. `DkimRecord.BodyLayout` states its properties. |
| `DkimRecord.BodyLayout` | roles/keys/filter_plugins/dkim_record.py:20-22 | The body is the 18-character prefix `v=DKIM1; k=rsa; p=` followed by the payload, and the payload can be recovered from it. The key type is always `rsa`. |
| `TxtStrings.ChunksFrom` | roles/keys/filter_plugins/dkim_record.py:24 | Definition without a contract: the slices `d[i:i+255]` for `i` in `range(start, len(d), 255)`. `TxtStrings.ChunkCount`, `TxtStrings.ChunkSizes`, `TxtStrings.ChunkAt` and `TxtStrings.ChunksConcat` state its properties. |
| `TxtStrings.Chunks` | roles/keys/filter_plugins/dkim_record.py:24 | Definition without a contract: the slices of the whole body, from position 0. `DkimRecord.RecordShape` and `TxtStrings.SingleChunk` state its properties. |
| `TxtStrings.Accumulated` | roles/keys/filter_plugins/dkim_record.py:23-26 | Definition without a contract: the accumulator after `"chunk" ` has been appended for every chunk. `TxtStrings.AccumulateStep`, `TxtStrings.TrimmedAccumulator` and the loop invariant of `DkimRecord.DkimRecord` state its properties. |
| `TxtStrings.DropLast` | roles/keys/filter_plugins/dkim_record.py:27 | Definition without a contract: Python's `[:-1]`, which gives "" for "". `TxtStrings.TrimmedAccumulator` states what it leaves of the accumulator. |
| `TxtStrings.ChunkCount` | roles/keys/filter_plugins/dkim_record.py:24 | `range(start, len, 255)` yields `ceil((len - start) / 255)` chunks. |
| `TxtStrings.ChunkSizes` | roles/keys/filter_plugins/dkim_record.py:24 | Every chunk is non-empty and at most 255 characters long. Every chunk except the last is exactly 255. |
| `TxtStrings.ChunkAt` | roles/keys/filter_plugins/dkim_record.py:24 | Chunk `k` is the slice starting at `start + 255*k`, ending 255 characters later or at the end of the body. |
| `TxtStrings.ChunksConcat` | roles/keys/filter_plugins/dkim_record.py:24 | Laying the chunks end to end gives back the body exactly. |
| `TxtStrings.ChunksQuoteFree` | roles/keys/filter_plugins/dkim_record.py:24 | A body without double quotes gives chunks without double quotes. |
| `TxtStrings.SingleChunk` | roles/keys/filter_plugins/dkim_record.py:24-27 | A body of 1 to 255 characters is one chunk, and the value is that body between quotes. |
| `TxtStrings.AccumulateStep` | roles/keys/filter_plugins/dkim_record.py:24-26 | One pass of the loop appends `"slice" ` for the slice at `i` to the pieces for the slices that follow. |
| `TxtStrings.TrimmedAccumulator` | roles/keys/filter_plugins/dkim_record.py:23-27 | The accumulated `"chunk" ` pieces are the space-separated quoted chunks plus one trailing space. Dropping the last character leaves exactly the joined form. |
| `TxtStrings.JoinLength` | roles/keys/filter_plugins/dkim_record.py:24-27 | The joined form of `n` chunks is `3*n - 1` characters longer than the chunks laid end to end. |
| `TxtStrings.ReadJoin` | roles/keys/filter_plugins/dkim_record.py:24-27 | Reading the quoted strings of the joined form gives back the chunks, provided no chunk contains a double quote. |
| `DkimRecord.Record` | roles/keys/filter_plugins/dkim_record.py:19-27 | Definition without a contract: the value the filter returns, as a function of the key. `DkimRecord.DkimRecord` is proved equal to it; `DkimRecord.RecordShape`, `DkimRecord.RecordStartsWithPrefix`, `DkimRecord.ArmourOnlyRecord` and `DkimRecord.RecordReadBack` state its properties. |
| `DkimRecord.DkimRecord` | roles/keys/filter_plugins/dkim_record.py:19-27 | The filter's loop over `range(0, len(dkim), 255)` with its accumulator returns exactly `Record(pubkey)`. |
| `DkimRecord.RecordShape` | roles/keys/filter_plugins/dkim_record.py:20-27 | For every key, the body is the prefix plus the payload. It is cut into `ceil(|body|/255) >= 1` chunks, each of 1–255 characters and all but the last exactly 255, which concatenate back to the body. The value is the quoted chunks joined by single spaces. It has length `|body| + 3n - 1` and is at most `|key| + 18 + 3n - 1`. |
| `DkimRecord.RecordStartsWithPrefix` | roles/keys/filter_plugins/dkim_record.py:22-27 | The value always begins with the complete quoted prefix `"v=DKIM1; k=rsa; p=`: chunking applies to the whole body, and no chunk boundary falls inside the prefix. |
| `DkimRecord.ArmourOnlyRecord` | roles/keys/filter_plugins/dkim_record.py:21-27 | A key made only of armour lines and whitespace gives exactly `"v=DKIM1; k=rsa; p="`. |
| `DkimRecord.EmptyKeyRecord` | roles/keys/filter_plugins/dkim_record.py:21-27 | The empty key gives exactly `"v=DKIM1; k=rsa; p="`. |
| `DkimRecord.ShortKeyPayload` | roles/keys/filter_plugins/dkim_record.py:21 | The key given as `PemText(["AAAA"])`, which is the header line, the line `AAAA` and the footer line, each ended by a newline (`-----BEGIN PUBLIC KEY-----\nAAAA\n-----END PUBLIC KEY-----\n`), strips to `AAAA`. |
| `DkimRecord.ShortKeyRecord` | roles/keys/filter_plugins/dkim_record.py:19-27 | The key given as `PemText(["AAAA"])` gives exactly `"v=DKIM1; k=rsa; p=AAAA"`, a single quoted string. |
| `DkimRecord.BodyQuoteFree` | roles/keys/filter_plugins/dkim_record.py:21-22 | A key without a double quote gives a body without a double quote. |
| `DkimRecord.RecordReadBack` | roles/keys/filter_plugins/dkim_record.py:19-27 | For every key without a double quote, reading the quoted strings of the value and concatenating them gives back the body. This is how a resolver reassembles a split TXT record. |

## Left out

- `FilterModule.filters` (roles/keys/filter_plugins/dkim_record.py:14-17) only registers the filter's name with Ansible. It has no behaviour beyond that.
- roles/mailman/templates/settings_local.py is a static list of Django settings with no behaviour.
- The general regular-expression engine is not modelled. The one pattern used is hand-coded as the three-alternative scan, which is how `re.sub` applies it: leftmost match first, alternatives in order, no overlapping matches.
- Whitespace is the set Python 3 matches. Under Python 2 the pattern is a byte string without `re.UNICODE`, so `\s` matches only space, tab, newline, carriage return, form feed and vertical tab. U+001C–U+001F, U+0085, U+00A0 and the other non-ASCII spaces would then be kept. That behaviour is not modelled.
- A `pubkey` that is not a string (`None`, say) makes `re.sub` raise `TypeError`. The model's `string` parameter rules that input out.
- Python strings can also hold lone surrogate code points, which a Dafny `char` cannot. Such keys are outside the model.
- The filter does no PEM or base64 validation and escapes no `"` in the payload. The model adds neither. The read-back lemma is stated only for keys without a double quote, because a quote in a chunk ends its string early.
- Reading the key from a file, generating it and publishing the record in DNS happen outside the filter and are not modelled.
