/**
 The C-library string primitives the script loader relies on, stated over
 `seq<char>`: the NUL-terminated view of a character buffer (what `strlen`
 measures and what `std::string` copies), `strstr` as first-occurrence search,
 and character counting. A value that may be NULL is an `Option`.
 */
module CStrings {

  /** A value that may be NULL. */
  datatype Option<+T> = None | Some(value: T)

  /** The C-string view of a buffer: every character before the first NUL. */
  function CStr(s: seq<char>): (r: seq<char>)
    ensures |r| <= |s|
    ensures '\0' !in r
    ensures |r| < |s| ==> s[|r|] == '\0'
  {
    if |s| == 0 || s[0] == '\0' then [] else [s[0]] + CStr(s[1..])
  }

  /** The C-string view is a prefix of the buffer. */
  lemma {:induction false} CStrPrefix(s: seq<char>)
    ensures CStr(s) <= s
  {
    if |s| > 0 && s[0] != '\0' {
      CStrPrefix(s[1..]);
    }
  }

  /** A string with no NUL is its own C-string view. */
  lemma {:induction false} CStrOfNulFree(s: seq<char>)
    requires '\0' !in s
    ensures CStr(s) == s
  {
    if |s| > 0 {
      assert s[0] in s;
      assert '\0' !in s[1..] by {
        forall k | 0 <= k < |s[1..]| ensures s[1..][k] != '\0' {
          assert s[1..][k] == s[k + 1];
          assert s[k + 1] in s;
        }
      }
      CStrOfNulFree(s[1..]);
    }
  }

  /** A NUL right after a NUL-free prefix ends the C-string view there, whatever follows. */
  lemma {:induction false} CStrOfTerminated(a: seq<char>, b: seq<char>)
    requires '\0' !in a && (b == [] || b[0] == '\0')
    ensures CStr(a + b) == a
    decreases |a|
  {
    if a != [] {
      assert (a + b)[0] == a[0] && a[0] in a;
      assert (a + b)[1..] == a[1..] + b;
      assert '\0' !in a[1..] by {
        forall k | 0 <= k < |a[1..]| ensures a[1..][k] != '\0' {
          assert a[1..][k] == a[k + 1];
          assert a[k + 1] in a;
        }
      }
      CStrOfTerminated(a[1..], b);
    } else {
      assert a + b == b;
    }
  }

  /** `pat` occurs in `s` starting at index `k`. */
  predicate OccursAt(s: seq<char>, pat: seq<char>, k: int)
  {
    0 <= k && k + |pat| <= |s| && s[k..k + |pat|] == pat
  }

  /** `strstr(s + from, pat)`: the first index at or after `from` where `pat` occurs. */
  function Find(s: seq<char>, pat: seq<char>, from: nat): (r: Option<nat>)
    ensures r.Some? ==> from <= r.value && OccursAt(s, pat, r.value)
    ensures r.Some? ==> forall k :: from <= k < r.value ==> !OccursAt(s, pat, k)
    ensures r.None? ==> forall k :: from <= k ==> !OccursAt(s, pat, k)
    decreases |s| - from
  {
    if |s| < from + |pat| then None
    else if s[from..from + |pat|] == pat then Some(from)
    else Find(s, pat, from + 1)
  }

  /** `strstr(s, pat) != NULL`. */
  predicate Contains(s: seq<char>, pat: seq<char>)
  {
    Find(s, pat, 0).Some?
  }

  /** Containment is the existence of an occurrence, in both directions. */
  lemma ContainsIff(s: seq<char>, pat: seq<char>)
    ensures Contains(s, pat) <==> exists k :: OccursAt(s, pat, k)
  {
    if exists k :: OccursAt(s, pat, k) {
      var k :| OccursAt(s, pat, k);
      assert 0 <= k;
    }
  }

  /** Searching for a one-character pattern is membership of that character. */
  lemma ContainsChar(s: seq<char>, c: char)
    ensures Contains(s, [c]) <==> c in s
  {
    ContainsIff(s, [c]);
    if c in s {
      var k :| 0 <= k < |s| && s[k] == c;
      assert s[k..k + 1] == [c];
      assert OccursAt(s, [c], k);
    }
    if exists k :: OccursAt(s, [c], k) {
      var k :| OccursAt(s, [c], k);
      assert s[k..k + 1][0] == s[k];
    }
  }

  /** Number of occurrences of `c` in `s`. */
  function Count(s: seq<char>, c: char): nat
  {
    if |s| == 0 then 0 else (if s[0] == c then 1 else 0) + Count(s[1..], c)
  }

  /** The count is the multiplicity of `c` in the multiset of the string's characters. */
  lemma {:induction false} CountIsMultiset(s: seq<char>, c: char)
    ensures Count(s, c) == multiset(s)[c]
  {
    if |s| > 0 {
      assert s == [s[0]] + s[1..];
      CountIsMultiset(s[1..], c);
    }
  }

  /** Counting over a string extended by one character. */
  lemma {:induction false} CountSnoc(s: seq<char>, x: char, c: char)
    ensures Count(s + [x], c) == Count(s, c) + if x == c then 1 else 0
  {
    if |s| > 0 {
      assert (s + [x])[1..] == s[1..] + [x];
      CountSnoc(s[1..], x, c);
    }
  }

}
