/** String helpers that stand for the JavaScript string operations used by the
    category matcher: `includes`, `replace` with a one-character string pattern,
    and `toLowerCase` (on ASCII letters). */
module Text {

  /** `s` holds `k` as a contiguous run of characters (`s.includes(k)`).
      The empty string is contained in every string, as in JavaScript. */
  predicate Contains(s: string, k: string) {
    exists i | 0 <= i <= |s| - |k| :: OccursAt(s, k, i)
  }

  /** `k` starts at position `i` of `s`. */
  predicate OccursAt(s: string, k: string, i: int) {
    0 <= i <= |s| - |k| && s[i..i + |k|] == k
  }

  /** Containment is transitive: a run inside a run is a run of the whole. */
  lemma {:induction false} ContainsTransitive(a: string, b: string, c: string)
    requires Contains(a, b) && Contains(b, c)
    ensures Contains(a, c)
  {
    var i :| 0 <= i <= |a| - |b| && OccursAt(a, b, i);
    var j :| 0 <= j <= |b| - |c| && OccursAt(b, c, j);
    forall t | 0 <= t < |c| ensures a[i + j + t] == c[t] {
      assert c[t] == b[j + t] == a[i + j + t];
    }
    assert a[i + j..i + j + |c|] == c;
    assert OccursAt(a, c, i + j);
  }

  /** A string contains every one of its prefixes. */
  lemma {:induction false} ContainsPrefix(k: string, tail: string)
    ensures Contains(k + tail, k)
  {
    assert OccursAt(k + tail, k, 0);
  }

  /** `s.replace(c, '')` for a one-character pattern: only the FIRST occurrence
      of `c` is removed. */
  function RemoveFirst(s: string, c: char): string {
    if s == [] then []
    else if s[0] == c then s[1..]
    else [s[0]] + RemoveFirst(s[1..], c)
  }

  /** Without an occurrence of `c` the string comes back unchanged. */
  lemma {:induction false} RemoveFirstAbsent(s: string, c: char)
    requires c !in s
    ensures RemoveFirst(s, c) == s
  {
    if s != [] {
      assert c !in s[1..];
      RemoveFirstAbsent(s[1..], c);
    }
  }

  /** When the first `c` of `s` stands at `i`, exactly that character is cut
      out and every other character is kept in order. */
  lemma {:induction false} RemoveFirstAt(s: string, c: char, i: int)
    requires 0 <= i < |s| && s[i] == c && c !in s[..i]
    ensures RemoveFirst(s, c) == s[..i] + s[i + 1..]
  {
    if i > 0 {
      assert s[0] == s[..i][0];
      assert s[1..][..i - 1] == s[1..i];
      assert c !in s[1..][..i - 1];
      RemoveFirstAt(s[1..], c, i - 1);
      assert s[..i] == [s[0]] + s[1..][..i - 1];
      assert s[i + 1..] == s[1..][i..];
    }
  }

  /** `toLowerCase` on one character; only the ASCII capitals are mapped. */
  function LowerChar(c: char): char {
    if 'A' <= c <= 'Z' then (c as int - 'A' as int + 'a' as int) as char else c
  }

  function Lower(s: string): (r: string)
    ensures |r| == |s|
  {
    seq(|s|, i requires 0 <= i < |s| => LowerChar(s[i]))
  }

  predicate IsLowerCase(s: string) {
    forall i | 0 <= i < |s| :: !('A' <= s[i] <= 'Z')
  }

  /** Lower-casing leaves nothing to lower-case, and a lower-case string is
      its own lower-case form. */
  lemma LowerIsLowerCase(s: string)
    ensures IsLowerCase(Lower(s))
    ensures IsLowerCase(s) <==> Lower(s) == s
  {
    if IsLowerCase(s) {
      assert forall i | 0 <= i < |s| :: Lower(s)[i] == s[i];
    }
    if Lower(s) == s {
      forall i | 0 <= i < |s| ensures !('A' <= s[i] <= 'Z') {
        assert Lower(s)[i] == s[i];
      }
    }
  }

  /** Lower-casing twice is lower-casing once. */
  lemma LowerIdempotent(s: string)
    ensures Lower(Lower(s)) == Lower(s)
  {
    LowerIsLowerCase(s);
    LowerIsLowerCase(Lower(s));
  }

  /** Lower-casing works character by character, so it maps each run of `s`
      to the run at the same place in `Lower(s)`; case differences never hide
      a contained string. */
  lemma {:induction false} ContainsLower(s: string, k: string)
    requires Contains(s, k)
    ensures Contains(Lower(s), Lower(k))
  {
    var i :| 0 <= i <= |s| - |k| && OccursAt(s, k, i);
    assert Lower(s)[i..i + |k|] == Lower(k);
    assert OccursAt(Lower(s), Lower(k), i);
  }
}
