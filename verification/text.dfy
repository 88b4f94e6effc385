/** The string methods the modelled code calls (str.strip, str.upper, str.lower,
    str.replace of one character, substring search, ", ".join and str.split),
    restricted to the ASCII range. */
module Text {

  /** Python's str.isspace on ASCII: tab, line feed, vertical tab, form feed,
      carriage return, the four separator controls 0x1C-0x1F and space. */
  predicate IsSpace(c: char) {
    ('\t' <= c <= '\r') || ('\U{1C}' <= c <= '\U{1F}') || c == ' '
  }

  /** Leading whitespace removed. */
  function TrimLeft(s: string): (r: string)
    ensures |r| <= |s| && r == s[|s| - |r|..]
    ensures r == [] || !IsSpace(r[0])
    ensures forall k :: 0 <= k < |s| - |r| ==> IsSpace(s[k])
  {
    if s != [] && IsSpace(s[0]) then
      var r := TrimLeft(s[1..]);
      assert s[1..][|s| - 1 - |r|..] == s[|s| - |r|..];
      assert forall k :: 1 <= k < |s| - |r| ==> s[k] == s[1..][k - 1];
      r
    else s
  }

  /** Trailing whitespace removed. */
  function TrimRight(s: string): (r: string)
    ensures |r| <= |s| && r == s[..|r|]
    ensures r == [] || !IsSpace(r[|r| - 1])
    ensures forall k :: |r| <= k < |s| ==> IsSpace(s[k])
  {
    if s != [] && IsSpace(s[|s| - 1]) then
      var r := TrimRight(s[..|s| - 1]);
      assert s[..|s| - 1][..|r|] == s[..|r|];
      assert forall k :: |r| <= k < |s| - 1 ==> s[k] == s[..|s| - 1][k];
      r
    else s
  }

  /** `r` is what is left of `s` at position `i` once the whitespace before `i` and
      after `i + |r|` is cut off. */
  predicate CutAt(s: string, r: string, i: int) {
    OccursAt(s, r, i)
      && (forall k :: 0 <= k < i ==> IsSpace(s[k]))
      && (forall k :: i + |r| <= k < |s| ==> IsSpace(s[k]))
  }

  /** `r` is `s` with nothing but whitespace cut off at its two ends. */
  predicate StrippedFrom(s: string, r: string) {
    exists i :: 0 <= i <= |s| && CutAt(s, r, i)
  }

  /** str.strip() with no argument. */
  function Strip(s: string): (r: string)
    ensures r == [] || (!IsSpace(r[0]) && !IsSpace(r[|r| - 1]))
  {
    TrimRight(TrimLeft(s))
  }

  /** Strip cuts off outer whitespace and nothing else. */
  lemma {:induction false} StripCutsWhitespace(s: string)
    ensures StrippedFrom(s, Strip(s))
  {
    var l := TrimLeft(s);
    TrimLeftCut(s);
    TrimRightCut(l);
    CutAtCompose(s, l, Strip(s), |s| - |l|, 0);
  }

  /** TrimLeft cuts off the leading whitespace, keeping the rest in place. */
  lemma TrimLeftCut(s: string)
    ensures CutAt(s, TrimLeft(s), |s| - |TrimLeft(s)|)
  {
    var l := TrimLeft(s);
    assert s[|s| - |l|..|s|] == l;
  }

  /** TrimRight cuts off the trailing whitespace, keeping the rest in place. */
  lemma TrimRightCut(s: string)
    ensures CutAt(s, TrimRight(s), 0)
  {
    var r := TrimRight(s);
    assert s[0..|r|] == r;
  }

  /** Cutting whitespace off a cut is cutting whitespace off the original. */
  lemma {:induction false} CutAtCompose(s: string, l: string, r: string, i: int, j: int)
    requires CutAt(s, l, i) && CutAt(l, r, j)
    ensures CutAt(s, r, i + j)
  {
    assert s[i..i + |l|] == l;
    assert l[j..j + |r|] == r;
    assert s[i + j..i + j + |r|] == r by {
      forall k | 0 <= k < |r| ensures s[i + j + k] == r[k] {
        assert s[i + j + k] == l[j + k];
      }
    }
    forall k | 0 <= k < i + j ensures IsSpace(s[k]) {
      if k >= i {
        assert s[k] == l[k - i];
      }
    }
    forall k | i + j + |r| <= k < |s| ensures IsSpace(s[k]) {
      if k < i + |l| {
        assert s[k] == l[k - i];
      }
    }
  }

  /** Stripping leaves a string that starts and ends with non-space unchanged. */
  lemma StripUnchanged(s: string)
    requires s == [] || (!IsSpace(s[0]) && !IsSpace(s[|s| - 1]))
    ensures Strip(s) == s
  {
  }

  /** The two properties of Strip determine it: any text cut from `s` by removing
      outer whitespace alone, and starting and ending with non-space, is Strip(s). */
  lemma {:induction false} StripUnique(s: string, r: string)
    requires StrippedFrom(s, r)
    requires r == [] || (!IsSpace(r[0]) && !IsSpace(r[|r| - 1]))
    ensures r == Strip(s)
  {
    var t := Strip(s);
    StripCutsWhitespace(s);
    var i :| 0 <= i <= |s| && CutAt(s, r, i);
    var j :| 0 <= j <= |s| && CutAt(s, t, j);
    CutAtUnique(s, r, i, t, j);
  }

  /** Two cuts of the same text that both start and end with non-space are the same. */
  lemma {:induction false} CutAtUnique(s: string, r: string, i: int, t: string, j: int)
    requires CutAt(s, r, i) && (r == [] || (!IsSpace(r[0]) && !IsSpace(r[|r| - 1])))
    requires CutAt(s, t, j) && (t == [] || (!IsSpace(t[0]) && !IsSpace(t[|t| - 1])))
    ensures r == t
  {
    assert r != [] ==> s[i] == r[0] && s[i + |r| - 1] == r[|r| - 1];
    assert t != [] ==> s[j] == t[0] && s[j + |t| - 1] == t[|t| - 1];
    if r != [] && t != [] {
      assert i == j && |r| == |t|;
      assert r == s[i..i + |r|];
    }
  }

  lemma StripIdempotent(s: string)
    ensures Strip(Strip(s)) == Strip(s)
  {
    StripUnchanged(Strip(s));
  }

  /** Upper-casing one character leaves no lower-case ASCII letter and keeps whitespace. */
  function UpperChar(c: char): (u: char)
    ensures !('a' <= u <= 'z')
    ensures IsSpace(u) <==> IsSpace(c)
    ensures 'a' <= c <= 'z' || u == c
  {
    if 'a' <= c <= 'z' then (c as int - 'a' as int + 'A' as int) as char else c
  }

  /** Lower-casing one character leaves no upper-case ASCII letter and keeps whitespace. */
  function LowerChar(c: char): (l: char)
    ensures !('A' <= l <= 'Z')
    ensures IsSpace(l) <==> IsSpace(c)
    ensures 'A' <= c <= 'Z' || l == c
  {
    if 'A' <= c <= 'Z' then (c as int - 'A' as int + 'a' as int) as char else c
  }

  /** str.upper() on ASCII. */
  function Upper(s: string): (r: string)
    ensures |r| == |s|
    ensures forall i :: 0 <= i < |s| ==> r[i] == UpperChar(s[i])
    ensures (s == [] || (!IsSpace(s[0]) && !IsSpace(s[|s| - 1]))) ==> Normalised(r)
  {
    seq(|s|, i requires 0 <= i < |s| => UpperChar(s[i]))
  }

  /** str.lower() on ASCII. */
  function Lower(s: string): (r: string)
    ensures |r| == |s|
    ensures forall i :: 0 <= i < |s| ==> r[i] == LowerChar(s[i])
  {
    seq(|s|, i requires 0 <= i < |s| => LowerChar(s[i]))
  }

  /** Text as strip().upper() leaves it: no whitespace at either end and no lower-case
      letter. */
  predicate Normalised(s: string) {
    && (s == [] || (!IsSpace(s[0]) && !IsSpace(s[|s| - 1])))
    && forall i :: 0 <= i < |s| ==> !('a' <= s[i] <= 'z')
  }

  /** The normalisation applied to course codes: s.strip().upper(). */
  function StripUpper(s: string): (r: string)
    ensures |r| <= |s|
    ensures Normalised(r)
  {
    Upper(Strip(s))
  }

  /** Normalising a code is upper-casing it and then stripping it: the result is the
      upper-cased input with only its outer whitespace cut off. */
  lemma {:induction false} StripUpperCommutes(s: string)
    ensures StrippedFrom(Upper(s), StripUpper(s))
    ensures StripUpper(s) == Strip(Upper(s))
  {
    StripCutsWhitespace(s);
    UpperKeepsStripped(s, Strip(s));
    StripUnique(Upper(s), StripUpper(s));
  }

  /** Upper-casing commutes with cutting off outer whitespace, as it maps whitespace
      to whitespace and works character by character. */
  lemma {:induction false} UpperKeepsStripped(s: string, t: string)
    requires StrippedFrom(s, t)
    ensures StrippedFrom(Upper(s), Upper(t))
  {
    var i :| 0 <= i <= |s| && CutAt(s, t, i);
    UpperCutAt(s, t, i);
  }

  /** Upper-casing both texts keeps the cut at the same position. */
  lemma {:induction false} UpperCutAt(s: string, t: string, i: int)
    requires CutAt(s, t, i)
    ensures CutAt(Upper(s), Upper(t), i)
  {
    var u := Upper(s);
    assert u[i..i + |t|] == Upper(t) by {
      forall k | 0 <= k < |t| ensures u[i + k] == Upper(t)[k] {
        assert s[i + k] == t[k];
      }
    }
  }

  /** Normalising a normalised code changes nothing, so a code stored once is found
      again when it is normalised a second time. */
  lemma StripUpperIdempotent(s: string)
    ensures StripUpper(StripUpper(s)) == StripUpper(s)
  {
    var r := StripUpper(s);
    StripUnchanged(r);
    assert Upper(r) == r by {
      forall i | 0 <= i < |r| ensures Upper(r)[i] == r[i] {
        assert r[i] == UpperChar(Strip(s)[i]);
      }
    }
  }

  /** Text already stripped and in upper case is its own normalisation. */
  lemma StripUpperUnchanged(s: string)
    requires Normalised(s)
    ensures StripUpper(s) == s
  {
    StripUnchanged(s);
  }

  /** A normalised code is empty exactly when the input was all whitespace. */
  lemma StripUpperEmpty(s: string)
    ensures StripUpper(s) == [] <==> forall k :: 0 <= k < |s| ==> IsSpace(s[k])
  {
    var l := TrimLeft(s);
    if StripUpper(s) == [] {
      assert TrimRight(l) == [];
    }
  }

  /** The normalisation applied to categories before the t-test: s.strip().lower(). */
  function StripLower(s: string): (r: string)
    ensures |r| <= |s|
    ensures forall i :: 0 <= i < |r| ==> !('A' <= r[i] <= 'Z')
    ensures r == [] || (!IsSpace(r[0]) && !IsSpace(r[|r| - 1]))
  {
    var l := TrimLeft(s);
    var t := TrimRight(l);
    assert |t| <= |l| <= |s|;
    var r := Lower(t);
    assert r != [] ==> r[0] == LowerChar(t[0]) && r[|r| - 1] == LowerChar(t[|t| - 1]);
    r
  }

  /** Normalising a category is lower-casing it and then stripping it: the result is
      the lower-cased input with only its outer whitespace cut off. */
  lemma {:induction false} StripLowerCommutes(s: string)
    ensures StrippedFrom(Lower(s), StripLower(s))
    ensures StripLower(s) == Strip(Lower(s))
  {
    StripCutsWhitespace(s);
    LowerKeepsStripped(s, Strip(s));
    StripUnique(Lower(s), StripLower(s));
  }

  /** Lower-casing commutes with cutting off outer whitespace. */
  lemma {:induction false} LowerKeepsStripped(s: string, t: string)
    requires StrippedFrom(s, t)
    ensures StrippedFrom(Lower(s), Lower(t))
  {
    var i :| 0 <= i <= |s| && CutAt(s, t, i);
    LowerCutAt(s, t, i);
  }

  /** Lower-casing both texts keeps the cut at the same position. */
  lemma {:induction false} LowerCutAt(s: string, t: string, i: int)
    requires CutAt(s, t, i)
    ensures CutAt(Lower(s), Lower(t), i)
  {
    var l := Lower(s);
    assert l[i..i + |t|] == Lower(t) by {
      forall k | 0 <= k < |t| ensures l[i + k] == Lower(t)[k] {
        assert s[i + k] == t[k];
      }
    }
  }

  /** needle starts at position i of hay. */
  predicate OccursAt(hay: string, needle: string, i: int) {
    0 <= i <= |hay| - |needle| && hay[i..i + |needle|] == needle
  }

  /** needle occurs in hay as a contiguous substring (Python's `in` on strings). */
  function Contains(hay: string, needle: string): (b: bool)
    ensures b <==> exists i :: OccursAt(hay, needle, i)
    decreases |hay|
  {
    if |needle| > |hay| then false
    else if hay[..|needle|] == needle then assert OccursAt(hay, needle, 0); true
    else
      var b := Contains(hay[1..], needle);
      assert b ==> exists i :: OccursAt(hay, needle, i) by {
        if b {
          var j :| OccursAt(hay[1..], needle, j);
          assert hay[j + 1..j + 1 + |needle|] == hay[1..][j..j + |needle|];
          assert OccursAt(hay, needle, j + 1);
        }
      }
      assert (exists i :: OccursAt(hay, needle, i)) ==> b by {
        if exists i :: OccursAt(hay, needle, i) {
          var i :| OccursAt(hay, needle, i);
          assert i != 0;
          assert hay[1..][i - 1..i - 1 + |needle|] == hay[i..i + |needle|];
          assert OccursAt(hay[1..], needle, i - 1);
        }
      }
      b
  }

  /** Case-insensitive substring search (pandas str.contains with case=False, for a
      needle without regular-expression metacharacters). */
  function ContainsIgnoreCase(hay: string, needle: string): (b: bool)
    ensures b <==> exists i :: OccursAt(Lower(hay), Lower(needle), i)
  {
    Contains(Lower(hay), Lower(needle))
  }

  /** s.replace(c, "") for a one-character c. */
  function RemoveAll(s: string, c: char): (r: string)
    ensures c !in r
    ensures |r| <= |s|
    ensures forall d :: d != c ==> (d in r <==> d in s)
  {
    if s == [] then []
    else
      assert s == [s[0]] + s[1..];
      (if s[0] == c then [] else [s[0]]) + RemoveAll(s[1..], c)
  }

  /** Removal from a text with a first character: that character, unless it is the
      one removed, then the removal from the rest. */
  lemma RemoveAllCons(x: char, s: string, c: char)
    ensures RemoveAll([x] + s, c) == (if x == c then [] else [x]) + RemoveAll(s, c)
  {
    assert ([x] + s)[0] == x && ([x] + s)[1..] == s;
  }

  /** Removal works character by character, so the kept characters stay in order. */
  lemma {:induction false} RemoveAllConcat(a: string, b: string, c: char)
    ensures RemoveAll(a + b, c) == RemoveAll(a, c) + RemoveAll(b, c)
  {
    if a == [] {
      assert a + b == b;
    } else {
      var h := if a[0] == c then [] else [a[0]];
      assert a == [a[0]] + a[1..] && a + b == [a[0]] + (a[1..] + b);
      RemoveAllCons(a[0], a[1..] + b, c);
      RemoveAllCons(a[0], a[1..], c);
      RemoveAllConcat(a[1..], b, c);
      assert h + (RemoveAll(a[1..], c) + RemoveAll(b, c)) == (h + RemoveAll(a[1..], c)) + RemoveAll(b, c);
    }
  }

  lemma {:induction false} RemoveAllAbsent(s: string, c: char)
    requires c !in s
    ensures RemoveAll(s, c) == s
  {
    if s != [] {
      assert s == [s[0]] + s[1..];
      RemoveAllAbsent(s[1..], c);
    }
  }

  /** sep.join(parts). */
  function Join(sep: string, parts: seq<string>): string {
    if parts == [] then ""
    else if |parts| == 1 then parts[0]
    else parts[0] + sep + Join(sep, parts[1..])
  }

  /** str.split(sep) for a one-character separator: the pieces between separators. */
  function Split(s: string, sep: char): (r: seq<string>)
    ensures |r| >= 1
    ensures forall k :: 0 <= k < |r| ==> sep !in r[k]
    decreases |s|
  {
    if sep !in s then [s]
    else
      var i := FirstIndex(s, sep);
      [s[..i]] + Split(s[i + 1..], sep)
  }

  function FirstIndex(s: string, c: char): (i: nat)
    requires c in s
    ensures i < |s| && s[i] == c && c !in s[..i]
  {
    if s[0] == c then 0 else 1 + FirstIndex(s[1..], c)
  }

  /** Joining pieces free of the separator and splitting again gives the pieces back:
      the joined text lists every piece once, in order. */
  lemma {:induction false} SplitJoin(parts: seq<string>, sep: char)
    requires |parts| >= 1
    requires forall k :: 0 <= k < |parts| ==> sep !in parts[k]
    ensures Split(Join([sep], parts), sep) == parts
  {
    if |parts| > 1 {
      var rest := Join([sep], parts[1..]);
      var s := parts[0] + [sep] + rest;
      assert s[|parts[0]|] == sep;
      assert s[..|parts[0]|] == parts[0];
      assert FirstIndex(s, sep) == |parts[0]|;
      assert s[|parts[0]| + 1..] == rest;
      SplitJoin(parts[1..], sep);
    }
  }
}
