/** The Python string operations the price-text normalisation relies on:
    substring test (`t in s`), `s.replace(c, "")`, `s.replace(a, b)` for single
    characters and `s.replace(token, "")` for a multi-character token. */
module Text {

  predicate StartsWith(s: string, t: string) {
    |t| <= |s| && s[..|t|] == t
  }

  /** Python's `t in s`: scans `s` from the left for an occurrence of `t`. */
  predicate Contains(s: string, t: string)
    decreases |s|
  {
    StartsWith(s, t) || (|s| > 0 && Contains(s[1..], t))
  }

  /** `t` occurs in `s` starting at position `i`. */
  predicate OccursAt(s: string, t: string, i: int) {
    0 <= i <= |s| - |t| && s[i..i + |t|] == t
  }

  /** The scan finds `t` exactly when `t` occurs at some position of `s`. */
  lemma {:induction false} ContainsIffOccurs(s: string, t: string)
    ensures Contains(s, t) <==> exists i :: OccursAt(s, t, i)
  {
    if StartsWith(s, t) {
      assert OccursAt(s, t, 0);
    }
    if |s| == 0 {
      if exists i :: OccursAt(s, t, i) {
        assert StartsWith(s, t);
      }
    } else {
      ContainsIffOccurs(s[1..], t);
      if Contains(s[1..], t) {
        var i :| OccursAt(s[1..], t, i);
        assert s[i + 1..i + 1 + |t|] == s[1..][i..i + |t|];
        assert OccursAt(s, t, i + 1);
      }
      if exists i :: OccursAt(s, t, i) {
        var i :| OccursAt(s, t, i);
        if i == 0 {
          assert StartsWith(s, t);
        } else {
          assert s[1..][i - 1..i - 1 + |t|] == s[i..i + |t|];
          assert OccursAt(s[1..], t, i - 1);
        }
      }
    }
  }

  /** `s.replace(c, "")` for a single character `c`. */
  function RemoveChar(s: string, c: char): (r: string)
    ensures c !in r
    ensures |r| <= |s|
    ensures forall x :: x in r ==> x in s
  {
    if s == [] then [] else (if s[0] == c then [] else [s[0]]) + RemoveChar(s[1..], c)
  }

  lemma {:induction false} RemoveCharAppend(a: string, b: string, c: char)
    ensures RemoveChar(a + b, c) == RemoveChar(a, c) + RemoveChar(b, c)
  {
    if a != [] {
      assert (a + b)[1..] == a[1..] + b;
      RemoveCharAppend(a[1..], b, c);
    } else {
      assert a + b == b;
    }
  }

  /** `s.replace(from, to)` for single characters: every `from` becomes `to`,
      every other character stays where it is. */
  function ReplaceChar(s: string, from: char, to: char): (r: string)
    ensures |r| == |s|
    ensures forall i :: 0 <= i < |s| ==> r[i] == (if s[i] == from then to else s[i])
  {
    if s == [] then [] else [if s[0] == from then to else s[0]] + ReplaceChar(s[1..], from, to)
  }

  /** `s.replace(tok, "")`: deletes the non-overlapping occurrences of `tok`
      found scanning from the left. */
  function RemoveAll(s: string, tok: string): (r: string)
    requires tok != []
    decreases |s|
    ensures |r| <= |s|
    ensures forall x :: x in r ==> x in s
  {
    if StartsWith(s, tok) then RemoveAll(s[|tok|..], tok)
    else if s == [] then []
    else [s[0]] + RemoveAll(s[1..], tok)
  }

  /** Text without an occurrence of the token is left as it is. */
  lemma {:induction false} RemoveAllAbsent(s: string, tok: string)
    requires tok != []
    requires !Contains(s, tok)
    ensures RemoveAll(s, tok) == s
  {
    if s != [] {
      RemoveAllAbsent(s[1..], tok);
      assert [s[0]] + s[1..] == s;
    }
  }

  /** The first occurrence of the token is deleted and the text before it kept:
      when `x` holds no occurrence, not even one running into `tok` itself,
      removal from `x + tok + y` keeps `x` and goes on with `y`. */
  lemma {:induction false} RemoveAllFirst(x: string, y: string, tok: string)
    requires tok != []
    requires !Contains(x + tok[..|tok| - 1], tok)
    ensures RemoveAll(x + tok + y, tok) == x + RemoveAll(y, tok)
  {
    if x == [] {
      assert x + tok + y == tok + y;
      RemoveAllAtToken(tok, y);
    } else {
      RemoveAllKeepsHead(x, y, tok);
      RemoveAllFirst(x[1..], y, tok);
      ConsAppend(x, RemoveAll(y, tok));
    }
  }

  lemma ConsAppend(x: string, r: string)
    requires x != []
    ensures [x[0]] + (x[1..] + r) == x + r
  {
    assert [x[0]] + x[1..] == x;
  }

  /** Text that starts with the token loses it. */
  lemma RemoveAllAtToken(tok: string, y: string)
    requires tok != []
    ensures RemoveAll(tok + y, tok) == RemoveAll(y, tok)
  {
    var s := tok + y;
    assert StartsWith(s, tok);
    assert s[|tok|..] == y;
  }

  /** Before the first occurrence, removal keeps the first character. */
  lemma RemoveAllKeepsHead(x: string, y: string, tok: string)
    requires tok != [] && x != []
    requires !Contains(x + tok[..|tok| - 1], tok)
    ensures RemoveAll(x + tok + y, tok) == [x[0]] + RemoveAll(x[1..] + tok + y, tok)
    ensures !Contains(x[1..] + tok[..|tok| - 1], tok)
  {
    var s := x + tok + y;
    var partial := x + tok[..|tok| - 1];
    assert !StartsWith(s, tok) by {
      assert !StartsWith(partial, tok);
      assert s[..|tok|] == partial[..|tok|];
    }
    assert s[1..] == x[1..] + tok + y;
    assert partial[1..] == x[1..] + tok[..|tok| - 1];
  }

  /** A prefix in which the token's first character never appears cannot hold
      (the start of) an occurrence, so removal only acts on what follows it. */
  lemma {:induction false} RemoveAllAfter(x: string, y: string, tok: string)
    requires tok != []
    requires forall i :: 0 <= i < |x| ==> x[i] != tok[0]
    ensures RemoveAll(x + y, tok) == x + RemoveAll(y, tok)
  {
    if x == [] {
      assert x + y == y;
    } else {
      var xy := x + y;
      assert !StartsWith(xy, tok) by {
        assert xy[0] == x[0];
      }
      assert xy != [];
      assert RemoveAll(xy, tok) == [xy[0]] + RemoveAll(xy[1..], tok);
      assert xy[1..] == x[1..] + y;
      RemoveAllAfter(x[1..], y, tok);
      ConsAppend(x, RemoveAll(y, tok));
    }
  }

  /** Removing a character that does not occur changes nothing. */
  lemma {:induction false} RemoveCharAbsent(s: string, c: char)
    requires c !in s
    ensures RemoveChar(s, c) == s
  {
    if s != [] {
      assert s[0] != c;
      RemoveCharAbsent(s[1..], c);
      assert [s[0]] + s[1..] == s;
    }
  }

  /** Removing a token from the token itself leaves nothing. */
  lemma RemoveAllSelf(tok: string)
    requires tok != []
    ensures RemoveAll(tok, tok) == []
  {
    assert StartsWith(tok, tok);
    assert tok[|tok|..] == [];
  }

  predicate IsAsciiUpper(c: char) { 'A' <= c <= 'Z' }

  /** `s.lower()` on ASCII letters; no other character lowers to an ASCII one
      except the Kelvin sign and dotted capital I, which lower to `k` and `i`.
      Each capital becomes the small letter 32 code points above it, every
      other character stays, and no capital is left. */
  function AsciiLower(s: string): (r: string)
    ensures |r| == |s|
    ensures forall i :: 0 <= i < |s| ==>
      if IsAsciiUpper(s[i]) then 'a' <= r[i] <= 'z' && r[i] as int == s[i] as int + 32 else r[i] == s[i]
    ensures forall i :: 0 <= i < |r| ==> !IsAsciiUpper(r[i])
  {
    if s == [] then []
    else [if 'A' <= s[0] <= 'Z' then (s[0] as int + 32) as char else s[0]] + AsciiLower(s[1..])
  }

  /** Text without ASCII capitals is its own lower-case form. */
  lemma AsciiLowerKeeps(s: string)
    requires forall i :: 0 <= i < |s| ==> !IsAsciiUpper(s[i])
    ensures AsciiLower(s) == s
  {
    var r := AsciiLower(s);
    assert forall i :: 0 <= i < |s| ==> r[i] == s[i];
  }

  /** The characters at each position are equal or differ only in ASCII case. */
  predicate SameUpToCase(a: string, b: string) {
    |a| == |b|
    && forall i :: 0 <= i < |a| ==>
      a[i] == b[i]
      || (IsAsciiUpper(a[i]) && b[i] as int == a[i] as int + 32)
      || (IsAsciiUpper(b[i]) && a[i] as int == b[i] as int + 32)
  }

  /** Texts that differ only in ASCII case have the same lower-case form. */
  lemma AsciiLowerIgnoresCase(a: string, b: string)
    requires SameUpToCase(a, b)
    ensures AsciiLower(a) == AsciiLower(b)
  {
    var la, lb := AsciiLower(a), AsciiLower(b);
    forall i | 0 <= i < |a|
      ensures la[i] == lb[i]
    {
      LowerSameChar(a[i], b[i], la[i], lb[i]);
    }
    assert la == lb;
  }

  /** Text lowers to a text without capitals exactly when the two differ
      only in ASCII case. */
  lemma AsciiLowerIsSameUpToCase(s: string, t: string)
    requires forall i :: 0 <= i < |t| ==> !IsAsciiUpper(t[i])
    ensures AsciiLower(s) == t <==> SameUpToCase(s, t)
  {
    if SameUpToCase(s, t) {
      AsciiLowerIgnoresCase(s, t);
      AsciiLowerKeeps(t);
    }
    if AsciiLower(s) == t {
      forall i | 0 <= i < |s|
        ensures s[i] == t[i] || (IsAsciiUpper(s[i]) && t[i] as int == s[i] as int + 32)
      {
        assert AsciiLower(s)[i] == t[i];
      }
    }
  }

  lemma LowerSameChar(x: char, y: char, lx: char, ly: char)
    requires x == y || (IsAsciiUpper(x) && y as int == x as int + 32) || (IsAsciiUpper(y) && x as int == y as int + 32)
    requires if IsAsciiUpper(x) then lx as int == x as int + 32 else lx == x
    requires if IsAsciiUpper(y) then ly as int == y as int + 32 else ly == y
    ensures lx == ly
  {
    assert lx as int == ly as int;
  }

  lemma ReplaceCharAppend(a: string, b: string, from: char, to: char)
    ensures ReplaceChar(a + b, from, to) == ReplaceChar(a, from, to) + ReplaceChar(b, from, to)
  {
    assert forall i :: 0 <= i < |a + b| ==> (a + b)[i] == if i < |a| then a[i] else b[i - |a|];
  }

  lemma ReplaceCharAbsent(s: string, from: char, to: char)
    requires from !in s
    ensures ReplaceChar(s, from, to) == s
  {
  }
}
