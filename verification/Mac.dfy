/** MAC address normalisation (app/mac.py). */
module Mac {
  import opened Base
  import opened Text

  predicate IsHex(c: char) {
    '0' <= c <= '9' || 'a' <= c <= 'f' || 'A' <= c <= 'F'
  }

  predicate IsLowerHex(c: char) {
    '0' <= c <= '9' || 'a' <= c <= 'f'
  }

  // re.sub(r"[^0-9a-fA-F]", "", s)
  function HexDigits(s: string): (r: string)
    ensures forall c | c in r :: IsHex(c)
  {
    if s == "" then "" else (if IsHex(s[0]) then [s[0]] else "") + HexDigits(s[1..])
  }

  // ":".join of the pairs of digits.
  function WithColons(h: string): (r: string)
    requires |h| % 2 == 0
    ensures |h| > 0 ==> |r| == |h| + |h| / 2 - 1
  {
    if |h| <= 2 then h else h[..2] + ":" + WithColons(h[2..])
  }

  function NormalizeMac(mac: Option<string>): Option<string> {
    if mac.None? || mac.value == "" then None
    else
      var cleaned := Lower(HexDigits(mac.value));
      if |cleaned| != 12 then None else Some(WithColons(cleaned))
  }

  function MacPrefix(mac: string): Option<string> {
    if |mac| >= 8 then Some(mac[..8]) else None
  }

  // xx:xx:xx:xx:xx:xx in lower case.
  ghost predicate Canonical(mac: string) {
    exists h: string :: |h| == 12 && (forall c | c in h :: IsLowerHex(c)) && mac == WithColons(h)
  }

  lemma HexDigitsAppend(a: string, b: string)
    ensures HexDigits(a + b) == HexDigits(a) + HexDigits(b)
  {
    if a == "" {
      assert a + b == b;
    } else {
      assert (a + b)[1..] == a[1..] + b;
      HexDigitsAppend(a[1..], b);
    }
  }

  lemma {:induction false} HexDigitsOfHex(s: string)
    requires forall c | c in s :: IsHex(c)
    ensures HexDigits(s) == s
  {
    if s != "" {
      assert s[0] in s;
      forall c | c in s[1..] ensures IsHex(c) { assert c in s; }
      HexDigitsOfHex(s[1..]);
    }
  }

  lemma LowerOfLowerHex(h: string)
    requires forall c | c in h :: IsLowerHex(c)
    ensures Lower(h) == h
  {
    forall i | 0 <= i < |h| ensures Lower(h)[i] == h[i] { assert h[i] in h; }
  }

  lemma LowerOfHex(h: string)
    requires forall c | c in h :: IsHex(c)
    ensures forall c | c in Lower(h) :: IsLowerHex(c)
  {
    forall c | c in Lower(h) ensures IsLowerHex(c) {
      var i :| 0 <= i < |h| && Lower(h)[i] == c;
      assert h[i] in h;
    }
  }

  lemma {:induction false} HexDigitsOfColons(h: string)
    requires |h| % 2 == 0 && forall c | c in h :: IsHex(c)
    ensures HexDigits(WithColons(h)) == h
  {
    if |h| <= 2 {
      HexDigitsOfHex(h);
    } else {
      var pair, rest := h[..2], h[2..];
      forall c | c in pair ensures IsHex(c) { assert c in h; }
      forall c | c in rest ensures IsHex(c) { assert c in h; }
      HexDigitsOfHex(pair);
      HexDigitsOfColons(rest);
      HexDigitsAppend(pair + ":", WithColons(rest));
      HexDigitsAppend(pair, ":");
      assert HexDigits(":") == "";
    }
  }

  /**
    A result is canonical and depends on the hex digits alone: two spellings normalise to
    the same address exactly when their digits agree without regard to case.
   */
  lemma NormalizeIsCanonical(a: string, b: string)
    ensures NormalizeMac(Some(a)).Some? <==> |HexDigits(a)| == 12
    ensures NormalizeMac(Some(a)).Some? ==> Canonical(NormalizeMac(Some(a)).value)
    ensures NormalizeMac(Some(a)).Some? ==>
      (NormalizeMac(Some(a)) == NormalizeMac(Some(b)) <==> Lower(HexDigits(a)) == Lower(HexDigits(b)))
  {
    LowerOfHex(HexDigits(a));
    LowerOfHex(HexDigits(b));
    if |HexDigits(a)| == 12 && |HexDigits(b)| == 12 {
      ColonsInjective(Lower(HexDigits(a)), Lower(HexDigits(b)));
    }
  }

  lemma ColonsInjective(g: string, h: string)
    requires |g| == |h| == 12 && (forall c | c in g :: IsHex(c)) && (forall c | c in h :: IsHex(c))
    ensures WithColons(g) == WithColons(h) ==> g == h
  {
    HexDigitsOfColons(g);
    HexDigitsOfColons(h);
  }

  /** The fixed points are exactly the canonical addresses. */
  lemma NormalizeIdempotent(mac: string)
    ensures NormalizeMac(Some(mac)) == Some(mac) <==> Canonical(mac)
  {
    NormalizeIsCanonical(mac, mac);
    if Canonical(mac) {
      var h: string :| |h| == 12 && (forall c | c in h :: IsLowerHex(c)) && mac == WithColons(h);
      HexDigitsOfColons(h);
      LowerOfLowerHex(h);
    }
  }

  // What the export and import formats rely on: no separator character occurs in an address.
  lemma CanonicalCharacters(mac: string)
    requires Canonical(mac)
    ensures |mac| == 17 && forall c | c in mac :: IsLowerHex(c) || c == ':'
  {
    var h: string :| |h| == 12 && (forall c | c in h :: IsLowerHex(c)) && mac == WithColons(h);
    ColonsCharacters(h);
  }

  lemma {:induction false} ColonsCharacters(h: string)
    requires |h| % 2 == 0
    ensures forall c | c in WithColons(h) :: c in h || c == ':'
  {
    if |h| > 2 {
      ColonsCharacters(h[2..]);
      forall c | c in WithColons(h) ensures c in h || c == ':' {
        assert c in h[..2] || c == ':' || c in WithColons(h[2..]);
      }
    }
  }

  /** The eight characters the scanner looks a vendor up by are those of the first six digits. */
  lemma PrefixOfMac(h: string)
    requires |h| == 12
    ensures MacPrefix(WithColons(h)) == Some(WithColons(h[..6]))
  {
    var a, b, tail := h[..2], h[2..][..2], h[2..][2..];
    assert WithColons(h) == a + ":" + (b + ":" + WithColons(tail));
    var first, m := h[..6], h[..6][2..];
    assert first[..2] == a && m[..2] == b && m[2..] == tail[..2];
    assert WithColons(m) == m[..2] + ":" + WithColons(m[2..]);
    assert WithColons(first) == a + ":" + (b + ":" + tail[..2]);
    var rest := WithColons(tail);
    assert rest[..2] == tail[..2];
    assert (a + ":" + (b + ":" + rest))[..8] == a + ":" + (b + ":" + rest[..2]);
  }
}
