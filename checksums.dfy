/** The character-code checksum of glitter_utils.py and the greedy string
    builder that inverts it (the "forged password" of the login bypass). */
module Checksums {

  /** The largest code the builder emits (`max_ascii`). */
  const MaxAscii: int := 127

  /** `chr(127)`, the character emitted while at least 127 remains. */
  const Del: char := 127 as char

  /** `ascii_checksum`: the sum of the code points of `s`, first to last.
      It is zero exactly when every character is NUL. */
  function Checksum(s: string): (r: nat)
    ensures r == 0 <==> forall i :: 0 <= i < |s| ==> s[i] == '\0'
  {
    if s == [] then 0 else s[0] as int + Checksum(s[1..])
  }

  /** Every code point of `s` lies in [lo, hi]. */
  predicate CodesWithin(s: string, lo: int, hi: int)
  {
    forall i :: 0 <= i < |s| ==> lo <= s[i] as int <= hi
  }

  /** `n` copies of `chr(127)`. */
  function Dels(n: nat): (r: string)
    ensures |r| == n && forall i :: 0 <= i < n ==> r[i] == Del
  {
    seq(n, _ => Del)
  }

  /** Closed form of the string the builder returns: ⌊t/127⌋ copies of
      `chr(127)`, then `chr(t mod 127)` when that remainder is non-zero; the
      empty string for every `t <= 0`. */
  function Forged(t: int): string
  {
    if t <= 0 then []
    else Dels(t / MaxAscii) + (if t % MaxAscii == 0 then [] else [(t % MaxAscii) as char])
  }

  /** The empty string has checksum 0. */
  lemma ChecksumEmpty()
    ensures Checksum([]) == 0
  {
  }

  /** The checksum is additive over concatenation. */
  lemma {:induction false} ChecksumAppend(a: string, b: string)
    ensures Checksum(a + b) == Checksum(a) + Checksum(b)
  {
    if a != [] {
      assert (a + b)[1..] == a[1..] + b;
      ChecksumAppend(a[1..], b);
    } else {
      assert a + b == b;
    }
  }

  /** `n` copies of `chr(127)` sum to 127 * n. */
  lemma {:induction false} ChecksumDels(n: nat)
    ensures Checksum(Dels(n)) == MaxAscii * n
  {
    if n > 0 {
      assert Dels(n)[1..] == Dels(n - 1);
      ChecksumDels(n - 1);
    }
  }

  /** A string whose codes are all at most 127 has checksum at most 127 per
      character. */
  lemma {:induction false} ChecksumBound(s: string)
    requires CodesWithin(s, 0, MaxAscii)
    ensures Checksum(s) <= MaxAscii * |s|
  {
    if s != [] {
      assert CodesWithin(s[1..], 0, MaxAscii) by {
        forall i | 0 <= i < |s[1..]| ensures 0 <= s[1..][i] as int <= MaxAscii {
          assert s[1..][i] == s[i + 1];
        }
      }
      ChecksumBound(s[1..]);
    }
  }

  /** The builder inverts the checksum on every positive target, and gives the
      empty string (checksum 0) otherwise. */
  lemma ForgedChecksum(t: int)
    ensures Checksum(Forged(t)) == if t > 0 then t else 0
  {
    if t > 0 {
      var q, m := t / MaxAscii, t % MaxAscii;
      var tail: string := if m == 0 then [] else [m as char];
      ChecksumAppend(Dels(q), tail);
      ChecksumDels(q);
      if m != 0 {
        assert Checksum(tail) == m by {
          assert tail[1..] == [];
        }
      }
    }
  }

  /** Shape of the result: every code is in [1, 127], every character but
      the last is `chr(127)`, and the last one is `chr(t mod 127)` when that
      remainder is non-zero (`chr(127)` otherwise). */
  lemma ForgedShape(t: int)
    ensures CodesWithin(Forged(t), 1, MaxAscii)
    ensures forall i :: 0 <= i < |Forged(t)| - 1 ==> Forged(t)[i] == Del
    ensures t > 0 ==> |Forged(t)| > 0
    ensures t > 0 && t % MaxAscii != 0 ==> Forged(t)[|Forged(t)| - 1] as int == t % MaxAscii
    ensures t > 0 && t % MaxAscii == 0 ==> Forged(t)[|Forged(t)| - 1] == Del
  {
  }

  /** For `t > 0` the length is ⌈t/127⌉; for `t <= 0` it is 0. */
  lemma ForgedLength(t: int)
    ensures |Forged(t)| == if t > 0 then (t + MaxAscii - 1) / MaxAscii else 0
  {
  }

  /** "The least number of characters": no string whose codes are all at most
      127 and whose checksum is `t` is shorter than `Forged(t)`. */
  lemma ForgedIsShortest(t: int, s: string)
    requires CodesWithin(s, 0, MaxAscii)
    requires Checksum(s) == t
    ensures |Forged(t)| <= |s|
  {
    ChecksumBound(s);
    ForgedLength(t);
  }

  /** The minimality above needs the 127 bound: one character `chr(200)` has
      checksum 200, while the built string for 200 has two characters. */
  lemma ShorterBeyondAscii()
    ensures Checksum([200 as char]) == 200 && |Forged(200)| == 2
  {
    assert [200 as char][1..] == [];
  }

  /** Worked cases: 0, 127, 128 and 254. */
  lemma ForgedExamples()
    ensures Forged(0) == []
    ensures Forged(127) == [Del]
    ensures Forged(128) == [Del, 1 as char]
    ensures Forged(254) == [Del, Del]
  {
    assert Dels(1) == [Del];
    assert Dels(2) == [Del, Del];
  }

  /** How the login bypass uses the builder: the user name followed by the
      string built for `c - Checksum(u)` has checksum `c` exactly when `c` is
      not below the user name's own checksum. */
  lemma ForgedPasswordMatches(u: string, c: int)
    ensures Checksum(u + Forged(c - Checksum(u))) == c <==> c >= Checksum(u)
  {
    ChecksumAppend(u, Forged(c - Checksum(u)));
    ForgedChecksum(c - Checksum(u));
  }

  /** One more `chr(127)` at the end. */
  lemma DelsSnoc(n: nat)
    ensures Dels(n) + [Del] == Dels(n + 1)
  {
  }

  /** The closed form split into its quotient and remainder. */
  lemma ForgedDivMod(q: nat, m: int)
    requires 0 <= m < MaxAscii && MaxAscii * q + m > 0
    ensures Forged(MaxAscii * q + m) == Dels(q) + (if m == 0 then [] else [m as char])
  {
    var t := MaxAscii * q + m;
    assert t / MaxAscii == q && t % MaxAscii == m;
  }

  /** `least_chars_for_ascii_checksum`: append `chr(127)` while at least 127
      remains, then one character for the remainder. */
  method LeastCharsForChecksum(target: int) returns (result: string)
    ensures result == Forged(target)
    ensures target <= 0 ==> result == []
    ensures target > 0 ==> Checksum(result) == target
    ensures CodesWithin(result, 1, MaxAscii)
  {
    if target <= 0 {
      return "";
    }
    result := "";
    var rest := target;
    while rest > 0
      invariant 0 <= rest <= target
      invariant Checksum(result) + rest == target
      invariant CodesWithin(result, 1, MaxAscii)
      invariant rest > 0 ==> result == Dels(|result|) && rest == target - MaxAscii * |result|
      invariant rest == 0 ==> result == Forged(target)
      decreases rest
    {
      ChecksumAppend(result, if rest >= MaxAscii then [Del] else [rest as char]);
      if rest >= MaxAscii {
        DelsSnoc(|result|);
        result := result + [Del];
        rest := rest - MaxAscii;
        if rest == 0 {
          ForgedDivMod(|result|, 0);
        }
      } else {
        ForgedDivMod(|result|, rest);
        result := result + [rest as char];
        rest := 0;
      }
    }
  }
}
