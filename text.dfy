/** String helpers with JavaScript's meaning: the white space that String.prototype.trim and the
    regular-expression class \s recognise (WhiteSpace and LineTerminator of ECMAScript), trimming,
    and substring search. Strings are sequences of Unicode characters. */
module Text {

  /** U+0009, U+000A to U+000D, U+0020, U+00A0, U+1680, U+2000 to U+200A, U+2028, U+2029,
      U+202F, U+205F, U+3000 and U+FEFF. */
  predicate IsWhiteSpace(c: char) {
    var n := c as int;
    || n == 0x09 || n == 0x0A || n == 0x0B || n == 0x0C || n == 0x0D || n == 0x20
    || n == 0xA0 || n == 0x1680 || (0x2000 <= n <= 0x200A) || n == 0x2028 || n == 0x2029
    || n == 0x202F || n == 0x205F || n == 0x3000 || n == 0xFEFF
  }

  /** Every character is white space (this includes the empty string). */
  predicate IsBlank(s: string) {
    forall k :: 0 <= k < |s| ==> IsWhiteSpace(s[k])
  }

  /** a is a final segment of b. */
  predicate IsSuffix(a: string, b: string) {
    |a| <= |b| && a == b[|b| - |a|..]
  }

  lemma SuffixTransitive(a: string, b: string, c: string)
    requires IsSuffix(a, b) && IsSuffix(b, c)
    ensures IsSuffix(a, c)
  {
    assert c[|c| - |b|..][|b| - |a|..] == c[|c| - |a|..];
  }

  /** String.prototype.trimStart: the longest white-space prefix is removed. */
  function TrimStart(s: string): (r: string)
    ensures IsSuffix(r, s)
    ensures r == [] || !IsWhiteSpace(r[0])
    ensures forall k :: 0 <= k < |s| - |r| ==> IsWhiteSpace(s[k])
  {
    if s != [] && IsWhiteSpace(s[0]) then TrimStart(s[1..]) else s
  }

  /** The longest white-space suffix is removed. */
  function TrimEnd(s: string): (r: string)
    ensures |r| <= |s| && r == s[..|r|]
    ensures r == [] || !IsWhiteSpace(r[|r| - 1])
    ensures forall k :: |r| <= k < |s| ==> IsWhiteSpace(s[k])
  {
    if s != [] && IsWhiteSpace(s[|s| - 1]) then TrimEnd(s[..|s| - 1]) else s
  }

  /** String.prototype.trim. */
  function Trim(s: string): string {
    TrimEnd(TrimStart(s))
  }

  /** A string trims to the empty string exactly when it is blank. */
  lemma TrimEmptyIffBlank(s: string)
    ensures Trim(s) == [] <==> IsBlank(s)
  {
    var t := TrimStart(s);
    if !IsBlank(s) {
      var k :| 0 <= k < |s| && !IsWhiteSpace(s[k]);
      assert t[k - (|s| - |t|)] == s[k];
    }
  }

  /** A trimmed string neither starts nor ends with white space, and it is a segment of the
      original from which only white space was cut on either side. */
  lemma TrimEnds(s: string)
    ensures var r := Trim(s);
            && (r == [] || (!IsWhiteSpace(r[0]) && !IsWhiteSpace(r[|r| - 1])))
            && exists i :: 0 <= i <= |s| - |r| && OccursAt(s, r, i) && IsBlank(s[..i]) && IsBlank(s[i + |r|..])
  {
    var t := TrimStart(s);
    var r := TrimEnd(t);
    var i := |s| - |t|;
    assert t == s[i..];
    assert s[i..i + |r|] == r;
    assert IsBlank(s[..i]) by {
      forall k | 0 <= k < i ensures IsWhiteSpace(s[..i][k]) {
        assert s[..i][k] == s[k];
      }
    }
    var tail := s[i + |r|..];
    assert IsBlank(tail) by {
      forall k | 0 <= k < |tail| ensures IsWhiteSpace(tail[k]) {
        assert tail[k] == t[|r| + k];
      }
    }
    assert OccursAt(s, r, i);
  }

  /** A string that starts with a character other than white space is its own trimStart. */
  lemma TrimStartFixed(s: string)
    requires s != [] && !IsWhiteSpace(s[0])
    ensures TrimStart(s) == s
  {
  }

  /** String.prototype.includes. */
  predicate Contains(s: string, part: string) {
    exists i :: 0 <= i <= |s| - |part| && OccursAt(s, part, i)
  }

  /** part appears in s starting at index i. */
  predicate OccursAt(s: string, part: string, i: int) {
    0 <= i <= |s| - |part| && s[i..i + |part|] == part
  }

  /** Containment is transitive: whatever contains a string contains its substrings. */
  lemma ContainsTransitive(s: string, mid: string, part: string)
    requires Contains(s, mid) && Contains(mid, part)
    ensures Contains(s, part)
  {
    var i :| 0 <= i <= |s| - |mid| && OccursAt(s, mid, i);
    var j :| 0 <= j <= |mid| - |part| && OccursAt(mid, part, j);
    assert s[i + j..i + j + |part|] == part by {
      forall k | 0 <= k < |part| ensures s[i + j + k] == part[k] {
        assert part[k] == mid[j + k];
        assert mid[j + k] == s[i + j + k];
      }
    }
    assert OccursAt(s, part, i + j);
  }
}
