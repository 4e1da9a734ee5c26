/** Stage one of the DKIM record filter: removing the PEM armour lines and all
    whitespace from a public key, the way a single left-to-right `re.sub` pass
    with the pattern `BEGIN-marker|END-marker|\s` and an empty replacement does. */
module PemArmour {

  /** The header line of a PEM public key. */
  const BeginMarker: string := "-----BEGIN PUBLIC KEY-----"

  /** The footer line of a PEM public key. */
  const EndMarker: string := "-----END PUBLIC KEY-----"

  /** The characters `\s` matches in a Python `str` pattern: the characters for
      which `str.isspace` holds. */
  predicate IsSpace(c: char)
  {
    ('\t' <= c <= '\r') || ('\U{1C}' <= c <= ' ') || c == '\U{85}' || c == '\U{A0}'
    || c == '\U{1680}' || ('\U{2000}' <= c <= '\U{200A}') || c == '\U{2028}'
    || c == '\U{2029}' || c == '\U{202F}' || c == '\U{205F}' || c == '\U{3000}'
  }

  predicate NoSpace(s: string)
  {
    forall i :: 0 <= i < |s| ==> !IsSpace(s[i])
  }

  /** The substitution itself. At each position the alternatives are tried in
      the pattern's order: the whole BEGIN marker, then the whole END marker,
      then one whitespace character; a position where none of them matches
      keeps its character and the scan moves on by one. */
  function Strip(s: string): (p: string)
    ensures |p| <= |s|
    ensures NoSpace(p)
    decreases |s|
  {
    if |s| == 0 then ""
    else if BeginMarker <= s then Strip(s[|BeginMarker|..])
    else if EndMarker <= s then Strip(s[|EndMarker|..])
    else if IsSpace(s[0]) then Strip(s[1..])
    else [s[0]] + Strip(s[1..])
  }

  /** `a` is `b` with some of its characters deleted, the rest kept in order. */
  predicate IsSubsequence(a: string, b: string)
    decreases |b|
  {
    if |a| == 0 then true
    else if |b| == 0 then false
    else (a[0] == b[0] && IsSubsequence(a[1..], b[1..])) || IsSubsequence(a, b[1..])
  }

  /** Text made of nothing but armour lines and whitespace, as the scan reads it. */
  predicate OnlyArmour(s: string)
    decreases |s|
  {
    |s| == 0
    || (BeginMarker <= s && OnlyArmour(s[|BeginMarker|..]))
    || (EndMarker <= s && OnlyArmour(s[|EndMarker|..]))
    || (IsSpace(s[0]) && OnlyArmour(s[1..]))
  }

  /** Both markers contain a space, so text without whitespace holds neither
      marker at any position. */
  lemma NoMarkerWithoutSpace(t: string)
    requires NoSpace(t)
    ensures !(BeginMarker <= t) && !(EndMarker <= t)
  {
    assert BeginMarker[10] == ' ' && EndMarker[8] == ' ';
  }

  /** Ignoring the first `k` characters of `b` keeps `a` a subsequence. */
  lemma {:induction false} SubsequenceOfSuffix(a: string, b: string, k: nat)
    requires k <= |b|
    requires IsSubsequence(a, b[k..])
    ensures IsSubsequence(a, b)
    decreases k
  {
    if k > 0 {
      assert b[1..][k - 1..] == b[k..];
      SubsequenceOfSuffix(a, b[1..], k - 1);
    } else {
      assert b[k..] == b;
    }
  }

  /** The payload is an order-preserving selection of the key's characters:
      nothing is inserted, duplicated or reordered. */
  lemma {:induction false} StripIsSubsequence(s: string)
    ensures IsSubsequence(Strip(s), s)
    decreases |s|
  {
    if |s| == 0 {
    } else if BeginMarker <= s {
      StripIsSubsequence(s[|BeginMarker|..]);
      SubsequenceOfSuffix(Strip(s), s, |BeginMarker|);
    } else if EndMarker <= s {
      StripIsSubsequence(s[|EndMarker|..]);
      SubsequenceOfSuffix(Strip(s), s, |EndMarker|);
    } else if IsSpace(s[0]) {
      StripIsSubsequence(s[1..]);
      SubsequenceOfSuffix(Strip(s), s, 1);
    } else {
      StripIsSubsequence(s[1..]);
      var p := Strip(s);
      assert p[0] == s[0] && p[1..] == Strip(s[1..]);
    }
  }

  /** The key comes back unchanged exactly when it holds no whitespace: a
      whitespace character is always dropped, and without whitespace neither
      marker can occur. */
  lemma {:induction false} StripIdentity(s: string)
    ensures Strip(s) == s <==> NoSpace(s)
    decreases |s|
  {
    if |s| > 0 && NoSpace(s) {
      NoMarkerWithoutSpace(s);
      assert NoSpace(s[1..]) by {
        forall i | 0 <= i < |s[1..]| ensures !IsSpace(s[1..][i]) {
          assert s[1..][i] == s[i + 1];
        }
      }
      StripIdentity(s[1..]);
      assert s == [s[0]] + s[1..];
    }
  }

  /** Stripping a second time changes nothing. */
  lemma StripIdempotent(s: string)
    ensures Strip(Strip(s)) == Strip(s)
  {
    StripIdentity(Strip(s));
  }

  /** The two markers differ at their sixth character and start with '-', which is
      not whitespace, so at most one alternative of the pattern matches. */
  lemma MarkersExclusive(s: string)
    ensures BeginMarker <= s ==> !(EndMarker <= s) && !IsSpace(s[0])
    ensures EndMarker <= s ==> !IsSpace(s[0])
  {
    assert BeginMarker[0] == EndMarker[0] == '-';
    assert BeginMarker[5] == 'B' && EndMarker[5] == 'E';
  }

  /** The payload is empty exactly when the key is nothing but armour lines and
      whitespace. */
  lemma {:induction false} StripEmpty(s: string)
    ensures Strip(s) == "" <==> OnlyArmour(s)
    decreases |s|
  {
    MarkersExclusive(s);
    if |s| == 0 {
    } else if BeginMarker <= s {
      StripEmpty(s[|BeginMarker|..]);
    } else if EndMarker <= s {
      StripEmpty(s[|EndMarker|..]);
    } else if IsSpace(s[0]) {
      StripEmpty(s[1..]);
    } else {
      assert Strip(s)[0] == s[0];
    }
  }

  /** Dropping a leading part in which `c` does not occur leaves the number of
      occurrences of `c` unchanged. */
  lemma CountAfterDrop(s: string, n: nat, c: char)
    requires n <= |s| && c !in s[..n]
    ensures multiset(s[n..])[c] == multiset(s)[c]
  {
    assert s == s[..n] + s[n..];
    assert multiset(s) == multiset(s[..n]) + multiset(s[n..]);
  }

  /** A character that is not whitespace and occurs in neither marker can only be
      kept: it survives as often as it occurs in the key. This covers the
      lower-case letters, the digits and '+', '/' and '=' of base64. */
  lemma {:induction false} StripKeepsOtherCharacters(s: string, c: char)
    requires !IsSpace(c) && c !in BeginMarker && c !in EndMarker
    ensures multiset(Strip(s))[c] == multiset(s)[c]
    decreases |s|
  {
    if |s| == 0 {
    } else if BeginMarker <= s {
      StripKeepsOtherCharacters(s[|BeginMarker|..], c);
      CountAfterDrop(s, |BeginMarker|, c);
    } else if EndMarker <= s {
      StripKeepsOtherCharacters(s[|EndMarker|..], c);
      CountAfterDrop(s, |EndMarker|, c);
    } else if IsSpace(s[0]) {
      StripKeepsOtherCharacters(s[1..], c);
      CountAfterDrop(s, 1, c);
    } else {
      StripKeepsOtherCharacters(s[1..], c);
      assert s == [s[0]] + s[1..];
    }
  }

  /** One step of the scan over a marker. */
  lemma StripBeginMarker(t: string)
    ensures Strip(BeginMarker + t) == Strip(t)
  {
    assert (BeginMarker + t)[|BeginMarker|..] == t;
  }

  lemma StripEndMarker(t: string)
    ensures Strip(EndMarker + t) == Strip(t)
  {
    assert EndMarker[5] == 'E' && BeginMarker[5] == 'B';
    assert (EndMarker + t)[|EndMarker|..] == t;
  }

  /** One step of the scan over a single character that starts no marker. */
  lemma StripCharacter(c: char, t: string)
    requires !(BeginMarker <= [c] + t) && !(EndMarker <= [c] + t)
    ensures Strip([c] + t) == (if IsSpace(c) then "" else [c]) + Strip(t)
  {
    assert ([c] + t)[1..] == t;
  }

  /** Text without whitespace and without '-' passes the scan unchanged, whatever
      follows it: no marker can start inside it. */
  lemma {:induction false} StripPlainPrefix(x: string, t: string)
    requires NoSpace(x) && '-' !in x
    ensures Strip(x + t) == x + Strip(t)
    decreases |x|
  {
    if |x| > 0 {
      var u := x + t;
      assert u[0] == x[0] && u[1..] == x[1..] + t;
      assert BeginMarker[0] == '-' && EndMarker[0] == '-';
      assert !IsSpace(x[0]);
      assert Strip(u) == [x[0]] + Strip(x[1..] + t);
      assert NoSpace(x[1..]) by {
        forall i | 0 <= i < |x[1..]| ensures !IsSpace(x[1..][i]) {
          assert x[1..][i] == x[i + 1];
        }
      }
      StripPlainPrefix(x[1..], t);
      calc {
        [x[0]] + (x[1..] + Strip(t));
        ([x[0]] + x[1..]) + Strip(t);
        { assert [x[0]] + x[1..] == x; }
        x + Strip(t);
      }
    } else {
      assert x + t == t;
    }
  }

  /** The header line and its newline are dropped whole. */
  lemma StripHeaderLine(t: string)
    ensures Strip(BeginMarker + ("\n" + t)) == Strip(t)
  {
    StripBeginMarker("\n" + t);
    assert BeginMarker[0] == '-' && EndMarker[0] == '-';
    StripCharacter('\n', t);
  }

  /** The footer line and its newline leave nothing. */
  lemma StripFooterLine()
    ensures Strip(EndMarker + "\n") == ""
  {
    StripEndMarker("\n");
    assert BeginMarker[0] == '-' && EndMarker[0] == '-';
    StripCharacter('\n', "");
  }
}
