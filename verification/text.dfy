/** Text normalisation used by the spelling check: JavaScript's
    `toLowerCase`, `trim` and `replace(/\s+/g, '')`, over `seq<char>`.

    Lower-casing is modelled for ASCII letters only; whitespace is the
    ECMAScript set (WhiteSpace and LineTerminator code points), which is
    what both `trim` and the regular-expression class `\s` use.
 */
module Text {

  /** ECMAScript WhiteSpace or LineTerminator code point. */
  predicate IsSpace(c: char) {
    var k := c as int;
    || 0x09 <= k <= 0x0D          // tab, line feed, vertical tab, form feed, carriage return
    || k == 0x20 || k == 0xA0     // space, no-break space
    || k == 0x1680                // Ogham space mark
    || 0x2000 <= k <= 0x200A      // en quad .. hair space
    || k == 0x2028 || k == 0x2029 // line and paragraph separators
    || k == 0x202F || k == 0x205F || k == 0x3000
    || k == 0xFEFF                // byte order mark
  }

  predicate IsUpper(c: char) {
    'A' <= c <= 'Z'
  }

  function LowerChar(c: char): (d: char)
    ensures IsUpper(c) ==> d as int == c as int - 'A' as int + 'a' as int
    ensures !IsUpper(d)
    ensures IsSpace(d) == IsSpace(c)
    ensures !IsUpper(c) ==> d == c
  {
    if IsUpper(c) then (c as int - 'A' as int + 'a' as int) as char else c
  }

  /** `toLowerCase` on ASCII letters; every other character is kept. */
  function Lower(s: string): (r: string)
    ensures |r| == |s|
    ensures forall i :: 0 <= i < |s| ==> r[i] == LowerChar(s[i])
  {
    seq(|s|, i requires 0 <= i < |s| => LowerChar(s[i]))
  }

  predicate AllSpace(s: string) {
    forall i :: 0 <= i < |s| ==> IsSpace(s[i])
  }

  predicate NoSpace(s: string) {
    forall i :: 0 <= i < |s| ==> !IsSpace(s[i])
  }

  /** Length of the longest all-whitespace prefix. */
  function LeadingSpaces(s: string): (k: nat)
    ensures k <= |s|
    ensures forall i :: 0 <= i < k ==> IsSpace(s[i])
    ensures k < |s| ==> !IsSpace(s[k])
  {
    if |s| > 0 && IsSpace(s[0]) then 1 + LeadingSpaces(s[1..]) else 0
  }

  /** Length of the longest all-whitespace suffix. */
  function TrailingSpaces(s: string): (k: nat)
    ensures k <= |s|
    ensures forall i :: |s| - k <= i < |s| ==> IsSpace(s[i])
    ensures k < |s| ==> !IsSpace(s[|s| - 1 - k])
  {
    if |s| > 0 && IsSpace(s[|s| - 1]) then 1 + TrailingSpaces(s[..|s| - 1]) else 0
  }

  /** Every character of `s` outside positions `a .. b-1` is whitespace. */
  predicate SpacesOutside(s: string, a: nat, b: nat) {
    forall i :: 0 <= i < |s| && (i < a || b <= i) ==> IsSpace(s[i])
  }

  /** `String.prototype.trim`: `s` is `pre + r + post` with `pre` and `post`
      all whitespace, and `r` neither starts nor ends with whitespace. */
  function Trim(s: string): (r: string)
    ensures r == [] || (!IsSpace(r[0]) && !IsSpace(r[|r| - 1]))
    ensures exists a, b :: 0 <= a <= b <= |s| && r == s[a..b] && SpacesOutside(s, a, b)
  {
    var a := LeadingSpaces(s);
    var k := TrailingSpaces(s[a..]);
    var b := |s| - k;
    assert forall i :: b <= i < |s| ==> s[i] == s[a..][i - a];
    assert SpacesOutside(s, a, b);
    assert a < b ==> s[b - 1] == s[a..][|s| - a - 1 - k];
    s[a..b]
  }

  /** `replace(/\s+/g, '')`: every whitespace character removed. */
  function Squash(s: string): (r: string)
    ensures NoSpace(r)
    ensures |r| <= |s|
  {
    if s == [] then []
    else if IsSpace(s[0]) then Squash(s[1..])
    else [s[0]] + Squash(s[1..])
  }

  lemma {:induction false} SquashAppend(a: string, b: string)
    ensures Squash(a + b) == Squash(a) + Squash(b)
  {
    if a == [] {
      assert a + b == b;
    } else {
      assert (a + b)[1..] == a[1..] + b;
      SquashAppend(a[1..], b);
    }
  }

  lemma {:induction false} SquashAllSpace(s: string)
    requires AllSpace(s)
    ensures Squash(s) == []
  {
    if s != [] {
      SquashAllSpace(s[1..]);
    }
  }

  lemma {:induction false} SquashNoSpace(s: string)
    requires NoSpace(s)
    ensures Squash(s) == s
  {
    if s != [] {
      SquashNoSpace(s[1..]);
    }
  }

  /** Removing whitespace after trimming is the same as removing it from
      the untrimmed text: the `trim` before `replace` changes nothing. */
  lemma SquashIgnoresTrim(s: string)
    ensures Squash(Trim(s)) == Squash(s)
  {
    var a: nat, b: nat :| a <= b <= |s| && Trim(s) == s[a..b] && SpacesOutside(s, a, b);
    SquashSurrounded(s, a, b);
  }

  /** Whitespace around `s[a..b]` contributes nothing once removed. */
  lemma SquashSurrounded(s: string, a: nat, b: nat)
    requires a <= b <= |s| && SpacesOutside(s, a, b)
    ensures Squash(s[a..b]) == Squash(s)
  {
    OutsideIsSpace(s, a, b);
    assert s == s[..a] + s[a..b] + s[b..];
    SquashBetweenSpaces(s[..a], s[a..b], s[b..]);
  }

  lemma SquashBetweenSpaces(pre: string, mid: string, post: string)
    requires AllSpace(pre) && AllSpace(post)
    ensures Squash(pre + mid + post) == Squash(mid)
  {
    calc {
      Squash(pre + mid + post);
      { SquashAppend(pre + mid, post); }
      Squash(pre + mid) + Squash(post);
      { SquashAppend(pre, mid); SquashAllSpace(pre); SquashAllSpace(post); }
      Squash(mid);
    }
  }

  lemma OutsideIsSpace(s: string, a: nat, b: nat)
    requires a <= b <= |s| && SpacesOutside(s, a, b)
    ensures AllSpace(s[..a]) && AllSpace(s[b..])
  {
    forall i | 0 <= i < a
      ensures IsSpace(s[..a][i])
    {
      assert s[..a][i] == s[i];
    }
    forall i | 0 <= i < |s| - b
      ensures IsSpace(s[b..][i])
    {
      assert s[b..][i] == s[b + i];
    }
  }

  /** Lower-casing neither creates nor removes whitespace, so it commutes
      with whitespace removal. */
  lemma {:induction false} SquashLowerCommute(s: string)
    ensures Squash(Lower(s)) == Lower(Squash(s))
  {
    if s != [] {
      assert Lower(s)[1..] == Lower(s[1..]);
      SquashLowerCommute(s[1..]);
      if !IsSpace(s[0]) {
        assert Lower([s[0]] + Squash(s[1..])) == [LowerChar(s[0])] + Lower(Squash(s[1..]));
      }
    }
  }
}
