/**
 * The string operations of the Python and JavaScript runtimes that the
 * dashboard relies on: Python's str.isspace / split() / strip() /
 * replace('  ', ' ') / ' '.join and one-character upper(), and JavaScript's
 * toLowerCase and includes.  Case mapping is modelled on ASCII letters only.
 */
module Text {

  /** Python's str.isspace() on one character (the characters str.split() and strip() treat as blanks). */
  predicate IsSpace(c: char) {
    c == ' ' || ('\t' <= c <= '\r') || ('\U{1C}' <= c <= '\U{1F}')
    || c == '\U{85}' || c == '\U{A0}' || c == '\U{1680}'
    || ('\U{2000}' <= c <= '\U{200A}') || c == '\U{2028}' || c == '\U{2029}'
    || c == '\U{202F}' || c == '\U{205F}' || c == '\U{3000}'
  }

  predicate NoSpace(s: string) {
    forall i :: 0 <= i < |s| ==> !IsSpace(s[i])
  }

  predicate AllSpace(s: string) {
    forall i :: 0 <= i < |s| ==> IsSpace(s[i])
  }

  /** A word as str.split() returns it: non-empty and without blanks. */
  predicate IsWord(w: string) {
    w != [] && NoSpace(w)
  }

  /** The longest prefix of `s` that contains no blank. */
  function WordPrefix(s: string): (w: string)
    ensures |w| <= |s| && w == s[..|w|]
    ensures NoSpace(w)
    ensures |w| < |s| ==> IsSpace(s[|w|])
    ensures s != [] && !IsSpace(s[0]) ==> w != []
  {
    if s == [] || IsSpace(s[0]) then [] else [s[0]] + WordPrefix(s[1..])
  }

  /** Python's str.split() with no separator: the maximal runs of non-blank characters, in order. */
  function Split(s: string): (ws: seq<string>)
    ensures forall i :: 0 <= i < |ws| ==> IsWord(ws[i])
    decreases |s|
  {
    if s == [] then []
    else if IsSpace(s[0]) then Split(s[1..])
    else
      var w := WordPrefix(s);
      [w] + Split(s[|w|..])
  }

  /** Python's ' '.join(ws). */
  function Join(ws: seq<string>): string {
    if ws == [] then []
    else if |ws| == 1 then ws[0]
    else ws[0] + " " + Join(ws[1..])
  }

  /** The first position at or after i that does not hold a blank (|s| when there is none). */
  function SkipBlanks(s: string, i: nat): (j: nat)
    requires i <= |s|
    ensures i <= j <= |s|
    ensures forall k :: i <= k < j ==> IsSpace(s[k])
    ensures j == |s| || !IsSpace(s[j])
    decreases |s| - i
  {
    if i < |s| && IsSpace(s[i]) then SkipBlanks(s, i + 1) else i
  }

  /** The position after the last non-blank before position j (0 when there is none). */
  function TrimBlanks(s: string, j: nat): (k: nat)
    requires j <= |s|
    ensures k <= j
    ensures forall m :: k <= m < j ==> IsSpace(s[m])
    ensures k == 0 || !IsSpace(s[k - 1])
  {
    if j > 0 && IsSpace(s[j - 1]) then TrimBlanks(s, j - 1) else j
  }

  /** Python's str.lstrip() with no argument. */
  function StripLeft(s: string): (r: string)
    ensures |r| <= |s|
    ensures r == s[|s| - |r|..] && AllSpace(s[..|s| - |r|])
    ensures r == [] || !IsSpace(r[0])
  {
    s[SkipBlanks(s, 0)..]
  }

  /** Python's str.rstrip() with no argument. */
  function StripRight(s: string): (r: string)
    ensures |r| <= |s|
    ensures r == s[..|r|] && AllSpace(s[|r|..])
    ensures r == [] || !IsSpace(r[|r| - 1])
  {
    s[..TrimBlanks(s, |s|)]
  }

  /** Python's str.strip(): the text between the leading and the trailing blanks. */
  function Strip(s: string): (r: string)
    ensures r == [] || (!IsSpace(r[0]) && !IsSpace(r[|r| - 1]))
  {
    StripRight(StripLeft(s))
  }

  /** Python's s.replace('  ', ' '): each non-overlapping pair of spaces, scanned from the left, becomes one space. */
  function CollapseSpacePairs(s: string): (r: string)
    ensures |r| <= |s|
    decreases |s|
  {
    if |s| >= 2 && s[0] == ' ' && s[1] == ' ' then " " + CollapseSpacePairs(s[2..])
    else if s == [] then []
    else [s[0]] + CollapseSpacePairs(s[1..])
  }

  /** Two spaces in a row start at position `i` of `s`. */
  predicate SpacePairAt(s: string, i: int) {
    0 <= i < |s| - 1 && s[i] == ' ' && s[i + 1] == ' '
  }

  ghost predicate HasSpacePair(s: string) {
    exists i :: SpacePairAt(s, i)
  }

  /** JavaScript's toLowerCase on one character (ASCII letters). */
  function LowerChar(c: char): char {
    if 'A' <= c <= 'Z' then (c as int + 32) as char else c
  }

  /** Python's upper() on one character (ASCII letters). */
  function UpperChar(c: char): char {
    if 'a' <= c <= 'z' then (c as int - 32) as char else c
  }

  /** An ASCII capital letter. */
  predicate IsUpper(c: char) {
    'A' <= c <= 'Z'
  }

  /**
   * JavaScript's String.prototype.toLowerCase (ASCII letters): no capital is
   * left, every capital becomes the small letter at the same place in the
   * alphabet, and every other character is kept.
   */
  function Lower(s: string): (r: string)
    ensures |r| == |s|
    ensures forall i :: 0 <= i < |r| ==> !IsUpper(r[i])
    ensures forall i :: 0 <= i < |s| && !IsUpper(s[i]) ==> r[i] == s[i]
    ensures forall i :: 0 <= i < |s| && IsUpper(s[i]) ==> r[i] as int - 'a' as int == s[i] as int - 'A' as int
  {
    seq(|s|, i requires 0 <= i < |s| => LowerChar(s[i]))
  }

  /** Lower-casing twice is lower-casing once. */
  lemma LowerIdempotent(s: string)
    ensures Lower(Lower(s)) == Lower(s)
  {
    var l := Lower(s);
    assert forall i :: 0 <= i < |l| ==> Lower(l)[i] == l[i];
  }

  /** Lower-casing works character by character, so it distributes over concatenation. */
  lemma LowerAppend(a: string, b: string)
    ensures Lower(a + b) == Lower(a) + Lower(b)
  {
    var l, r := Lower(a + b), Lower(a) + Lower(b);
    assert forall i :: 0 <= i < |a| ==> (a + b)[i] == a[i] && r[i] == Lower(a)[i];
    assert forall i :: |a| <= i < |a| + |b| ==> (a + b)[i] == b[i - |a|] && r[i] == Lower(b)[i - |a|];
  }

  /** A text occurs inside any text that has it in the middle. */
  lemma IncludesInfix(a: string, t: string, b: string)
    ensures Includes(a + t + b, t)
  {
    var s := a + t + b;
    assert s[|a|..|a| + |t|] == t;
    assert OccursAt(s, t, |a|);
    IncludesIffOccurs(s, t);
  }

  /** JavaScript's s.includes(t). */
  predicate Includes(s: string, t: string)
    ensures t == [] ==> Includes(s, t)
    ensures Includes(s, t) ==> |t| <= |s|
    decreases |s|
  {
    |t| <= |s| && (s[..|t|] == t || Includes(s[1..], t))
  }

  /** `t` occurs in `s` starting at position `i`. */
  predicate OccursAt(s: string, t: string, i: int) {
    0 <= i <= |s| - |t| && s[i..i + |t|] == t
  }

  /** `includes` holds exactly when `t` occurs at some position of `s`. */
  lemma {:induction false} IncludesIffOccurs(s: string, t: string)
    ensures Includes(s, t) <==> exists i :: OccursAt(s, t, i)
    decreases |s|
  {
    if |t| <= |s| && s[..|t|] != t {
      IncludesIffOccurs(s[1..], t);
      if exists i :: OccursAt(s, t, i) {
        var i :| OccursAt(s, t, i);
        assert i != 0;
        assert s[1..][i - 1..i - 1 + |t|] == s[i..i + |t|];
        assert OccursAt(s[1..], t, i - 1);
      }
      if Includes(s[1..], t) {
        var j :| OccursAt(s[1..], t, j);
        assert s[j + 1..j + 1 + |t|] == s[1..][j..j + |t|];
        assert OccursAt(s, t, j + 1);
      }
    } else if |t| <= |s| {
      assert OccursAt(s, t, 0);
    }
  }

  /** The empty term occurs in every text. */
  lemma IncludesEmpty(s: string)
    ensures Includes(s, [])
  {
  }

  /** A word followed by a blank (or by nothing) is what WordPrefix takes. */
  lemma {:induction false} WordPrefixOfWord(w: string, rest: string)
    requires NoSpace(w)
    requires rest == [] || IsSpace(rest[0])
    ensures WordPrefix(w + rest) == w
  {
    if w != [] {
      assert (w + rest)[1..] == w[1..] + rest;
      WordPrefixOfWord(w[1..], rest);
    } else {
      assert w + rest == rest;
    }
  }

  /** Splitting the ' '.join of words gives back those words. */
  lemma {:induction false} SplitJoin(ws: seq<string>)
    requires forall i :: 0 <= i < |ws| ==> IsWord(ws[i])
    ensures Split(Join(ws)) == ws
  {
    if |ws| == 1 {
      var w := ws[0];
      WordPrefixOfWord(w, []);
      assert w + [] == w;
      assert w[|w|..] == [];
    } else if |ws| >= 2 {
      var w, rest := ws[0], Join(ws[1..]);
      var s := w + " " + rest;
      assert s == w + (" " + rest);
      WordPrefixOfWord(w, " " + rest);
      assert s[|w|..] == " " + rest;
      assert (" " + rest)[1..] == rest;
      SplitJoin(ws[1..]);
      assert [ws[0]] + ws[1..] == ws;
    }
  }

  /** str.split() returns no word exactly when the text is blank. */
  lemma {:induction false} SplitEmptyIffBlank(s: string)
    ensures Split(s) == [] <==> AllSpace(s)
    decreases |s|
  {
    if s != [] && IsSpace(s[0]) {
      SplitEmptyIffBlank(s[1..]);
      if AllSpace(s[1..]) {
        forall i | 0 <= i < |s| ensures IsSpace(s[i]) {
          if i > 0 { assert s[i] == s[1..][i - 1]; }
        }
      }
      if AllSpace(s) {
        forall i | 0 <= i < |s| - 1 ensures IsSpace(s[1..][i]) {
          assert s[1..][i] == s[i + 1];
        }
      }
    }
  }

  /** A text without a pair of spaces is left alone by replace('  ', ' '). */
  lemma {:induction false} CollapseWithoutPairs(s: string)
    requires !HasSpacePair(s)
    ensures CollapseSpacePairs(s) == s
    decreases |s|
  {
    if s != [] {
      assert !SpacePairAt(s, 0);
      assert !HasSpacePair(s[1..]) by {
        forall i | 0 <= i < |s[1..]| - 1 ensures !SpacePairAt(s[1..], i) {
          assert !SpacePairAt(s, i + 1);
        }
      }
      CollapseWithoutPairs(s[1..]);
      assert [s[0]] + s[1..] == s;
    }
  }

  /** replace('  ', ' ') keeps the last character when it is not a space. */
  lemma {:induction false} CollapseKeepsLast(s: string)
    requires s != [] && s[|s| - 1] != ' '
    ensures CollapseSpacePairs(s) != []
    ensures CollapseSpacePairs(s)[|CollapseSpacePairs(s)| - 1] == s[|s| - 1]
    decreases |s|
  {
    if |s| >= 2 && s[0] == ' ' && s[1] == ' ' {
      assert s[2..] != [] && s[2..][|s[2..]| - 1] == s[|s| - 1];
      CollapseKeepsLast(s[2..]);
      CollapseStepPair(s);
    } else if |s| > 1 {
      assert s[1..][|s[1..]| - 1] == s[|s| - 1];
      CollapseKeepsLast(s[1..]);
      CollapseStepOne(s);
    } else {
      CollapseStepOne(s);
    }
  }

  /** replace('  ', ' ') on a text that starts with two spaces. */
  lemma CollapseStepPair(s: string)
    requires |s| >= 2 && s[0] == ' ' && s[1] == ' '
    ensures CollapseSpacePairs(s) == " " + CollapseSpacePairs(s[2..])
  {
  }

  /** replace('  ', ' ') on a non-empty text that does not start with two spaces. */
  lemma CollapseStepOne(s: string)
    requires s != [] && !(|s| >= 2 && s[0] == ' ' && s[1] == ' ')
    ensures CollapseSpacePairs(s) == [s[0]] + CollapseSpacePairs(s[1..])
  {
  }

  /** replace('  ', ' ') works piecewise across a cut that does not follow a space. */
  lemma {:induction false} CollapseAppend(a: string, b: string)
    requires a == [] || a[|a| - 1] != ' '
    ensures CollapseSpacePairs(a + b) == CollapseSpacePairs(a) + CollapseSpacePairs(b)
    decreases |a|, 1
  {
    if a == [] {
      assert a + b == b;
    } else if |a| >= 2 && a[0] == ' ' && a[1] == ' ' {
      CollapseAppendPair(a, b);
    } else {
      CollapseAppendOne(a, b);
    }
  }

  lemma {:induction false} CollapseAppendPair(a: string, b: string)
    requires |a| >= 2 && a[0] == ' ' && a[1] == ' ' && a[|a| - 1] != ' '
    ensures CollapseSpacePairs(a + b) == CollapseSpacePairs(a) + CollapseSpacePairs(b)
    decreases |a|, 0
  {
    assert (a + b)[2..] == a[2..] + b;
    CollapseAppend(a[2..], b);
    CollapseStepPair(a + b);
    CollapseStepPair(a);
  }

  lemma {:induction false} CollapseAppendOne(a: string, b: string)
    requires a != [] && !(|a| >= 2 && a[0] == ' ' && a[1] == ' ') && a[|a| - 1] != ' '
    ensures CollapseSpacePairs(a + b) == CollapseSpacePairs(a) + CollapseSpacePairs(b)
    decreases |a|, 0
  {
    assert (a + b)[1..] == a[1..] + b;
    CollapseAppend(a[1..], b);
    CollapseStepOne(a + b);
    CollapseStepOne(a);
  }

  /** Joining words after a last word: the join so far, a space, and that word. */
  lemma {:induction false} JoinSnoc(ws: seq<string>, w: string)
    requires ws != []
    ensures Join(ws + [w]) == Join(ws) + " " + w
  {
    if |ws| == 1 {
      assert ws + [w] == [ws[0], w];
    } else {
      assert (ws + [w])[1..] == ws[1..] + [w];
      JoinSnoc(ws[1..], w);
    }
  }

  /** The ' '.join of words starts with the first letter of the first word and ends with the last letter of the last. */
  lemma {:induction false} JoinEnds(ws: seq<string>)
    requires ws != [] && forall i :: 0 <= i < |ws| ==> IsWord(ws[i])
    ensures Join(ws) != [] && ws[0] != [] && ws[|ws| - 1] != []
    ensures Join(ws)[0] == ws[0][0]
    ensures Join(ws)[|Join(ws)| - 1] == ws[|ws| - 1][|ws[|ws| - 1]| - 1]
  {
    assert IsWord(ws[0]) && IsWord(ws[|ws| - 1]);
    if |ws| > 1 {
      var rest := ws[1..];
      JoinEnds(rest);
      var j := Join(rest);
      assert rest[|rest| - 1] == ws[|ws| - 1];
      var s := ws[0] + " " + j;
      assert Join(ws) == s;
      assert s[0] == ws[0][0] && s[|s| - 1] == j[|j| - 1];
    }
  }

  /** The ' '.join of words holds no pair of spaces. */
  lemma {:induction false} JoinHasNoPair(ws: seq<string>)
    requires forall i :: 0 <= i < |ws| ==> IsWord(ws[i])
    ensures !HasSpacePair(Join(ws))
  {
    if |ws| > 1 {
      var w, rest := ws[0], Join(ws[1..]);
      JoinHasNoPair(ws[1..]);
      JoinEnds(ws[1..]);
      var s := w + " " + rest;
      forall i | 0 <= i < |s| - 1 ensures !SpacePairAt(s, i) {
        if i < |w| {
          assert s[i] == w[i];
        } else if i == |w| {
          assert s[i + 1] == rest[0];
        } else {
          assert s[i] == rest[i - |w| - 1] && s[i + 1] == rest[i - |w|];
          assert !SpacePairAt(rest, i - |w| - 1);
        }
      }
    }
  }

  /** strip() leaves a text that neither starts nor ends with a blank as it is. */
  lemma StripUnchanged(s: string)
    requires s == [] || (!IsSpace(s[0]) && !IsSpace(s[|s| - 1]))
    ensures Strip(s) == s
  {
  }

  /** replace('  ', ' ') keeps the first character when it is not a space. */
  lemma CollapseKeepsFirst(s: string)
    requires s != [] && s[0] != ' '
    ensures CollapseSpacePairs(s) != [] && CollapseSpacePairs(s)[0] == s[0]
  {
  }
}
