/** Whitespace and trimming, as JavaScript's `String.prototype.trim` and the
    regular-expression class `\s` see them. Both use the same character set:
    the WhiteSpace and LineTerminator code points of ECMA-262. */
module Text {

  /** The ECMAScript whitespace set: TAB, LF, VT, FF, CR, SP, NBSP, the other
      Unicode space separators (category Zs), LS, PS and ZWNBSP. */
  predicate IsWhitespace(c: char)
  {
    || ('\t' <= c <= '\r') || c == ' ' || c == '\U{A0}' || c == '\U{1680}'
    || ('\U{2000}' <= c <= '\U{200A}') || c == '\U{2028}' || c == '\U{2029}'
    || c == '\U{202F}' || c == '\U{205F}' || c == '\U{3000}' || c == '\U{FEFF}'
  }

  predicate AllWhitespace(s: string)
  {
    forall i | 0 <= i < |s| :: IsWhitespace(s[i])
  }

  /** Drops the leading whitespace. */
  function TrimStart(s: string): (r: string)
    ensures |r| <= |s|
  {
    if s != [] && IsWhitespace(s[0]) then TrimStart(s[1..]) else s
  }

  /** Drops the trailing whitespace. */
  function TrimEnd(s: string): (r: string)
    ensures |r| <= |s|
  {
    if s != [] && IsWhitespace(s[|s| - 1]) then TrimEnd(s[..|s| - 1]) else s
  }

  /** `s.trim()`. */
  function Trim(s: string): string
  {
    TrimEnd(TrimStart(s))
  }

  /** `TrimStart` keeps the suffix that begins at the first non-whitespace
      character: what it drops is all whitespace. */
  lemma {:induction false} TrimStartIsSuffix(s: string)
    ensures var r := TrimStart(s);
            && r == s[|s| - |r|..]
            && AllWhitespace(s[..|s| - |r|])
            && (r != [] ==> !IsWhitespace(r[0]))
  {
    if s != [] && IsWhitespace(s[0]) {
      TrimStartIsSuffix(s[1..]);
      var r := TrimStart(s);
      var k := |s| - |r|;
      assert s[1..][..k - 1] == s[1..k];
      forall i | 0 <= i < k ensures IsWhitespace(s[..k][i]) {
        if i > 0 {
          assert s[..k][i] == s[1..][..k - 1][i - 1];
        }
      }
    }
  }

  /** `TrimEnd` keeps the prefix that ends at the last non-whitespace
      character: what it drops is all whitespace. */
  lemma {:induction false} TrimEndIsPrefix(s: string)
    ensures var r := TrimEnd(s);
            && r == s[..|r|]
            && AllWhitespace(s[|r|..])
            && (r != [] ==> !IsWhitespace(r[|r| - 1]))
  {
    if s != [] && IsWhitespace(s[|s| - 1]) {
      var t := s[..|s| - 1];
      TrimEndIsPrefix(t);
      var r := TrimEnd(s);
      assert r == t[..|r|];
      forall i | 0 <= i < |s| - |r| ensures IsWhitespace(s[|r|..][i]) {
        if |r| + i < |s| - 1 {
          assert s[|r|..][i] == t[|r|..][i];
        }
      }
    }
  }

  /** `s.trim()` is a slice of `s` with only whitespace around it and no
      whitespace at either end; it is empty exactly when `s` is all
      whitespace. */
  lemma TrimIsSlice(s: string)
    ensures var r := Trim(s);
            && (exists i, j | 0 <= i <= j <= |s| ::
                  r == s[i..j] && AllWhitespace(s[..i]) && AllWhitespace(s[j..]))
            && (r != [] ==> !IsWhitespace(r[0]) && !IsWhitespace(r[|r| - 1]))
            && (r == [] <==> AllWhitespace(s))
  {
    var t := TrimStart(s);
    var r := TrimEnd(t);
    TrimStartIsSuffix(s);
    TrimEndIsPrefix(t);
    var i := |s| - |t|;
    var j := i + |r|;
    assert r == s[i..j];
    assert s[j..] == t[|r|..];
    if r == [] {
      assert t[|r|..] == t;
      assert t == [];
      forall k | 0 <= k < |s| ensures IsWhitespace(s[k]) {
        assert s[..i][k] == s[k];
      }
    }
    if r != [] {
      assert s[i] == r[0];
    }
  }
}
