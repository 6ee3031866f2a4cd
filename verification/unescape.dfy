/**
 * The doubled-escape collapse the reader applies to a field in which it saw
 * a doubled escape character: `Replace(doubleEscapeChar, escapeCharAsString)`,
 * which rewrites each non-overlapping pair of escape characters, taken left
 * to right, into one escape character and copies every other character.
 */
module Unescape {
  import opened Outcomes

  /** `s` with each left-to-right, non-overlapping pair `e e` replaced by `e`. */
  function Collapse(s: string, e: char): string
  {
    if |s| == 0 then []
    else if |s| >= 2 && s[0] == e && s[1] == e then [e] + Collapse(s[2..], e)
    else [s[0]] + Collapse(s[1..], e)
  }

  /** Number of pairs `Collapse` rewrites: the leftmost-first non-overlapping `e e` pairs of `s`. */
  function Pairs(s: string, e: char): nat
  {
    if |s| < 2 then 0
    else if s[0] == e && s[1] == e then 1 + Pairs(s[2..], e)
    else Pairs(s[1..], e)
  }

  /** `s` with every escape character removed. */
  function Strip(s: string, e: char): (r: string)
    ensures e !in r
  {
    if |s| == 0 then [] else (if s[0] == e then [] else [s[0]]) + Strip(s[1..], e)
  }

  /** The encoding that quoting applies to a field's text: every escape character written twice. */
  function Double(s: string, e: char): (r: string)
    ensures |r| == |s| + CountOf(s, e)
  {
    if |s| == 0 then [] else (if s[0] == e then [e, e] else [s[0]]) + Double(s[1..], e)
  }

  /** Collapsing undoes doubling: unescaping the quoted form of any text gives the text back. */
  lemma {:induction false} CollapseDouble(s: string, e: char)
    ensures Collapse(Double(s, e), e) == s
  {
    if |s| > 0 {
      var rest := Double(s[1..], e);
      CollapseDouble(s[1..], e);
      if s[0] == e {
        assert Double(s, e) == [e, e] + rest;
        assert ([e, e] + rest)[2..] == rest;
      } else {
        assert Double(s, e) == [s[0]] + rest;
        assert ([s[0]] + rest)[1..] == rest;
      }
      assert s == [s[0]] + s[1..];
    }
  }

  /** The unescaped value is shorter than the raw interior by exactly the number of doubled escapes. */
  lemma {:induction false} CollapseLength(s: string, e: char)
    ensures |Collapse(s, e)| == |s| - Pairs(s, e)
    ensures 2 * Pairs(s, e) <= |s|
  {
    if |s| >= 2 && s[0] == e && s[1] == e {
      CollapseLength(s[2..], e);
    } else if |s| > 0 {
      CollapseLength(s[1..], e);
    }
  }

  /** Text without an escape character is its own unescaped value. */
  lemma {:induction false} CollapseWithoutEscape(s: string, e: char)
    requires e !in s
    ensures Collapse(s, e) == s
  {
    if |s| > 0 {
      assert e !in s[1..] by {
        assert forall i :: 0 <= i < |s[1..]| ==> s[1..][i] == s[i + 1];
      }
      CollapseWithoutEscape(s[1..], e);
      assert s == [s[0]] + s[1..];
    }
  }

  /** Every character other than the escape character is copied unchanged and in order. */
  lemma {:induction false} CollapseKeepsOtherChars(s: string, e: char)
    ensures Strip(Collapse(s, e), e) == Strip(s, e)
  {
    if |s| >= 2 && s[0] == e && s[1] == e {
      CollapseKeepsOtherChars(s[2..], e);
      var c := Collapse(s[2..], e);
      assert Collapse(s, e) == [e] + c;
      assert ([e] + c)[1..] == c;
      assert s[1..][1..] == s[2..];
    } else if |s| > 0 {
      CollapseKeepsOtherChars(s[1..], e);
      var c := Collapse(s[1..], e);
      assert Collapse(s, e) == [s[0]] + c;
      assert ([s[0]] + c)[1..] == c;
    }
  }
}
