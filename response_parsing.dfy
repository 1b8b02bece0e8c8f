/** `parse_response_data` of glitter_utils.py: drop every "dirty" character
    from a server reply, then cut it at a separator with the semantics of
    Python's `str.split(sep)` and `sep.join(parts)`. */
module ResponseParsing {
  import opened Outcomes

  /** The ValueError `str.split` raises for an empty separator. */
  datatype ParseError = EmptySeparator

  /** `sep` occurs in `s` starting at index `k`. */
  predicate OccursAt(s: string, sep: string, k: int)
  {
    0 <= k && k + |sep| <= |s| && s[k..k + |sep|] == sep
  }

  /** `sep` is a substring of `s` (Python's `sep in s`). */
  predicate Contains(s: string, sep: string)
  {
    exists k | 0 <= k <= |s| :: OccursAt(s, sep, k)
  }

  /** `s.find(sep)`: the lowest index at which `sep` occurs, or -1. */
  function Find(s: string, sep: string): (k: int)
    requires sep != []
    ensures k == -1 || OccursAt(s, sep, k)
    decreases |s|
  {
    if |s| < |sep| then -1
    else if s[..|sep|] == sep then 0
    else
      var k := Find(s[1..], sep);
      OccursAfterFirst(s, sep);
      if k == -1 then -1 else k + 1
  }

  /** `Find` gives -1 only when `sep` does not occur, and otherwise the
      first occurrence. */
  lemma {:induction false} FindIsFirst(s: string, sep: string)
    requires sep != []
    ensures Find(s, sep) == -1 <==> !Contains(s, sep)
    ensures forall j :: 0 <= j < Find(s, sep) ==> !OccursAt(s, sep, j)
    decreases |s|
  {
    if |s| >= |sep| && s[..|sep|] != sep {
      FindIsFirst(s[1..], sep);
      OccursAfterFirst(s, sep);
      assert !OccursAt(s, sep, 0);
      if Find(s, sep) == -1 {
        forall j | 0 <= j <= |s| ensures !OccursAt(s, sep, j) {
          if j >= 1 {
            assert !OccursAt(s[1..], sep, j - 1);
          }
        }
      }
    } else if |s| < |sep| {
      forall j | 0 <= j <= |s| ensures !OccursAt(s, sep, j) {
        assert j + |sep| > |s|;
      }
    } else {
      assert OccursAt(s, sep, 0);
    }
  }

  /** An occurrence in `s` past index 0 is an occurrence in `s[1..]`, one
      place earlier. */
  lemma OccursAfterFirst(s: string, sep: string)
    requires s != []
    ensures forall j :: 1 <= j ==> (OccursAt(s, sep, j) <==> OccursAt(s[1..], sep, j - 1))
  {
    forall j | 1 <= j ensures OccursAt(s, sep, j) <==> OccursAt(s[1..], sep, j - 1) {
      if j + |sep| <= |s| {
        assert s[1..][j - 1..j - 1 + |sep|] == s[j..j + |sep|];
      }
    }
  }

  /** `s.replace(c, "")`: `s` with every occurrence of `c` deleted. The
      remaining characters keep their multiplicities. */
  function RemoveAll(s: string, c: char): (r: string)
    ensures c !in r
    ensures forall x :: x != c ==> multiset(r)[x] == multiset(s)[x]
  {
    if s == [] then []
    else
      assert s == [s[0]] + s[1..];
      (if s[0] == c then [] else [s[0]]) + RemoveAll(s[1..], c)
  }

  /** `s` with every character of `dirty` deleted, in order: the value the
      loop over `dirty_chars` leaves in `data`. */
  function Clean(s: string, dirty: string): (r: string)
    ensures forall x :: x in r <==> x in s && x !in dirty
    decreases |s|
  {
    if s == [] then []
    else (if s[0] in dirty then [] else [s[0]]) + Clean(s[1..], dirty)
  }

  /** `sep.join(parts)`. */
  function Join(parts: seq<string>, sep: string): string
    decreases |parts|
  {
    if |parts| == 0 then []
    else if |parts| == 1 then parts[0]
    else parts[0] + sep + Join(parts[1..], sep)
  }

  /** `s.split(sep)` for a non-empty `sep`: cut at each leftmost
      non-overlapping occurrence of `sep`. */
  function Split(s: string, sep: string): (parts: seq<string>)
    requires sep != []
    ensures |parts| >= 1
    decreases |s|
  {
    var k := Find(s, sep);
    if k == -1 then [s] else [s[..k]] + Split(s[k + |sep|..], sep)
  }

  /** Deleting one more character after `Clean` is cleaning with that
      character added to the dirty set: the loop's step. */
  lemma {:induction false} RemoveAllAfterClean(s: string, dirty: string, c: char)
    ensures RemoveAll(Clean(s, dirty), c) == Clean(s, dirty + [c])
    decreases |s|
  {
    if s != [] {
      var head: string := if s[0] in dirty then [] else [s[0]];
      calc {
        RemoveAll(Clean(s, dirty), c);
        RemoveAll(head + Clean(s[1..], dirty), c);
        { RemoveAllAppend(head, Clean(s[1..], dirty), c); }
        RemoveAll(head, c) + RemoveAll(Clean(s[1..], dirty), c);
        { RemoveAllAfterClean(s[1..], dirty, c); }
        RemoveAll(head, c) + Clean(s[1..], dirty + [c]);
      }
      assert RemoveAll(head, c) == if s[0] in dirty + [c] then [] else [s[0]] by {
        if head != [] {
          assert head[1..] == [];
        }
      }
    }
  }

  /** Cleaning with no dirty characters changes nothing. */
  lemma {:induction false} CleanNothing(s: string)
    ensures Clean(s, []) == s
    decreases |s|
  {
    if s != [] {
      CleanNothing(s[1..]);
      assert s == [s[0]] + s[1..];
    }
  }

  /** `replace` works piece by piece over a concatenation. */
  lemma {:induction false} RemoveAllAppend(a: string, b: string, c: char)
    ensures RemoveAll(a + b, c) == RemoveAll(a, c) + RemoveAll(b, c)
    decreases |a|
  {
    if a == [] {
      assert a + b == b;
    } else {
      assert (a + b)[1..] == a[1..] + b;
      RemoveAllAppend(a[1..], b, c);
    }
  }

  /** `Join` of a piece followed by at least one more. */
  lemma JoinCons(p: string, parts: seq<string>, sep: string)
    requires |parts| >= 1
    ensures Join([p] + parts, sep) == p + sep + Join(parts, sep)
  {
    assert ([p] + parts)[1..] == parts;
  }

  /** Joining the pieces of a split gives back the string that was split. */
  lemma {:induction false} JoinSplit(s: string, sep: string)
    requires sep != []
    ensures Join(Split(s, sep), sep) == s
    decreases |s|
  {
    var k := Find(s, sep);
    if k != -1 {
      var rest := s[k + |sep|..];
      assert Split(s, sep) == [s[..k]] + Split(rest, sep);
      JoinSplit(rest, sep);
      JoinCons(s[..k], Split(rest, sep), sep);
      assert s == s[..k] + sep + rest;
    }
  }

  /** No piece of a split contains the separator. */
  lemma {:induction false} SplitPiecesAvoidSeparator(s: string, sep: string)
    requires sep != []
    ensures forall p :: p in Split(s, sep) ==> !Contains(p, sep)
    decreases |s|
  {
    var k := Find(s, sep);
    FindIsFirst(s, sep);
    if k != -1 {
      var head := s[..k];
      assert !Contains(head, sep) by {
        forall j | OccursAt(head, sep, j) ensures false {
          assert head[j..j + |sep|] == s[j..j + |sep|];
          assert OccursAt(s, sep, j);
        }
      }
      SplitPiecesAvoidSeparator(s[k + |sep|..], sep);
    }
  }

  /** A character of a slice is a character of the whole. */
  lemma InSlice(s: string, i: nat, j: nat, x: char)
    requires i <= j <= |s| && x in s[i..j]
    ensures x in s
  {
    var m :| 0 <= m < j - i && s[i..j][m] == x;
    assert s[i + m] == x;
  }

  /** Every character of every piece comes from the string that was split. */
  lemma {:induction false} SplitPiecesWithin(s: string, sep: string)
    requires sep != []
    ensures forall p, x :: p in Split(s, sep) && x in p ==> x in s
    decreases |s|
  {
    var k := Find(s, sep);
    if k != -1 {
      var rest := s[k + |sep|..];
      var parts := Split(s, sep);
      assert parts == [s[..k]] + Split(rest, sep);
      SplitPiecesWithin(rest, sep);
      forall p, x | p in parts && x in p ensures x in s {
        if p == s[..k] {
          InSlice(s, 0, k, x);
        } else {
          assert p in Split(rest, sep);
          InSlice(s, k + |sep|, |s|, x);
        }
      }
    }
  }

  /** With a one-character separator, splitting a join gives back the pieces,
      provided no piece contains the separator: split and join are inverse.
      (With a longer separator this fails: "aa".join(["a", ""]) splits as
      ["", "a"].) */
  lemma {:induction false} SplitJoin(parts: seq<string>, sep: string)
    requires |sep| == 1 && |parts| >= 1
    requires forall i :: 0 <= i < |parts| ==> sep[0] !in parts[i]
    ensures Split(Join(parts, sep), sep) == parts
    decreases |parts|
  {
    var s := Join(parts, sep);
    if |parts| == 1 {
      assert !Contains(s, sep) by {
        forall j | 0 <= j < |s| ensures !OccursAt(s, sep, j) {
          assert s[j] in parts[0];
        }
      }
    } else {
      var head, tail := parts[0], parts[1..];
      var rest := Join(tail, sep);
      var n := |head|;
      assert parts == [head] + tail;
      JoinCons(head, tail, sep);
      assert s == head + sep + rest;
      assert Find(s, sep) == n by {
        assert s[n..n + 1] == sep;
        assert OccursAt(s, sep, n);
        FindIsFirst(s, sep);
        forall j | 0 <= j < n ensures !OccursAt(s, sep, j) {
          assert s[j] == head[j];
        }
      }
      assert s[..n] == head;
      assert s[n + 1..] == rest;
      assert Split(s, sep) == [head] + Split(rest, sep);
      SplitJoin(tail, sep);
    }
  }

  /** Cleaning a string that holds no dirty character changes nothing. */
  lemma {:induction false} CleanKeepsClean(s: string, dirty: string)
    requires forall i :: 0 <= i < |s| ==> s[i] !in dirty
    ensures Clean(s, dirty) == s
    decreases |s|
  {
    if s != [] {
      CleanKeepsClean(s[1..], dirty);
      assert s == [s[0]] + s[1..];
    }
  }

  /** Every character of a join comes from a piece or from the separator. */
  lemma {:induction false} JoinChars(parts: seq<string>, sep: string)
    ensures forall x :: x in Join(parts, sep) ==> x in sep || exists i :: 0 <= i < |parts| && x in parts[i]
    decreases |parts|
  {
    if |parts| > 1 {
      JoinChars(parts[1..], sep);
      forall x | x in Join(parts[1..], sep) && x !in sep
        ensures exists i :: 0 <= i < |parts| && x in parts[i]
      {
        var i :| 0 <= i < |parts[1..]| && x in parts[1..][i];
        assert x in parts[i + 1];
      }
    }
  }

  /** What the server's reply format relies on: pieces free of the
      separator and of dirty characters, joined with a one-character
      separator that is not itself dirty, are parsed back into exactly those
      pieces. */
  lemma ParseOfJoin(parts: seq<string>, dirty: string, sep: string)
    requires |sep| == 1 && sep[0] !in dirty && |parts| >= 1
    requires forall i, x :: 0 <= i < |parts| && x in parts[i] ==> x != sep[0] && x !in dirty
    ensures Split(Clean(Join(parts, sep), dirty), sep) == parts
  {
    var s := Join(parts, sep);
    JoinChars(parts, sep);
    forall i | 0 <= i < |s| ensures s[i] !in dirty {
      assert s[i] in s;
    }
    CleanKeepsClean(s, dirty);
    SplitJoin(parts, sep);
  }

  /** `parse_response_data(data, dirty_chars, seperator)`; the Python
      defaults are `dirty_chars = '#}{"'` and `seperator = ","`. */
  method ParseResponseData(data: string, dirtyChars: string, separator: string)
    returns (r: Result<seq<string>, ParseError>)
    ensures separator == [] <==> r.Err?
    ensures separator != [] ==> r == Ok(Split(Clean(data, dirtyChars), separator))
    ensures r.Ok? ==> |r.value| >= 1
    ensures r.Ok? ==> Join(r.value, separator) == Clean(data, dirtyChars)
    ensures r.Ok? ==> forall p :: p in r.value ==> !Contains(p, separator)
    ensures r.Ok? ==> forall p, x :: p in r.value && x in p ==> x in data && x !in dirtyChars
  {
    var cleaned := data;
    CleanNothing(data);
    assert dirtyChars[..0] == [];
    for i := 0 to |dirtyChars|
      invariant cleaned == Clean(data, dirtyChars[..i])
    {
      RemoveAllAfterClean(data, dirtyChars[..i], dirtyChars[i]);
      assert dirtyChars[..i] + [dirtyChars[i]] == dirtyChars[..i + 1];
      cleaned := RemoveAll(cleaned, dirtyChars[i]);
    }
    assert dirtyChars[..|dirtyChars|] == dirtyChars;
    if separator == [] {
      return Err(EmptySeparator);
    }
    JoinSplit(cleaned, separator);
    SplitPiecesAvoidSeparator(cleaned, separator);
    SplitPiecesWithin(cleaned, separator);
    r := Ok(Split(cleaned, separator));
  }
}
