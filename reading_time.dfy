/**
 * `ReadingTimeEstimate`: the number of minutes shown for a post, from its word count at two
 * hundred words a minute. Words are the pieces of the trimmed text split on whitespace runs.
 */
module ReadingTime {
  import opened Text

  const WordsPerMinute: nat := 200

  predicate NotSpace(c: char) { !IsJsSpace(c) }

  /** `s.split(/\s+/)`: the pieces between maximal whitespace runs. */
  function SplitWs(s: string): (parts: seq<string>)
    ensures |parts| >= 1
    decreases |s|
  {
    var k := Span(s, NotSpace);
    if k == |s| then [s]
    else
      var n := Span(s[k..], IsJsSpace);
      [s[..k]] + SplitWs(s[k + n..])
  }

  /** `text.trim().split(/\s+/).length`. */
  function WordCount(text: string): nat {
    |SplitWs(Trim(text))|
  }

  /** `Math.ceil(wordCount / wordsPerMinute)`. */
  function CeilDiv(a: nat, b: nat): nat
    requires b > 0
  {
    (a + b - 1) / b
  }

  /** `calculateReadingTime`. */
  function ReadingMinutes(text: string): nat {
    CeilDiv(WordCount(text), WordsPerMinute)
  }

  // ---------------------------------------------------------------------------------------

  /** `CeilDiv` is the least number of whole minutes that hold the words. */
  lemma CeilDivFacts(a: nat, b: nat)
    requires b > 0
    ensures var m := CeilDiv(a, b); a <= m * b && (m == 0 || (m - 1) * b < a)
  {
  }

  /** More words never take less time. */
  lemma CeilDivMonotone(a: nat, a': nat, b: nat)
    requires b > 0 && a <= a'
    ensures CeilDiv(a, b) <= CeilDiv(a', b)
  {
    var m, m' := CeilDiv(a, b), CeilDiv(a', b);
    CeilDivFacts(a, b);
    CeilDivFacts(a', b);
    if m > m' {
      assert m' * b <= (m - 1) * b by {
        MulMonotone(m', m - 1, b);
      }
    }
  }

  lemma MulMonotone(x: nat, y: nat, b: nat)
    requires x <= y
    ensures x * b <= y * b
  {
  }

  /** A trimmed, non-empty text splits into non-empty pieces without whitespace. */
  lemma {:induction false} PiecesAreWords(s: string)
    requires s != [] && IsTrimmed(s)
    ensures forall i :: 0 <= i < |SplitWs(s)| ==> Word(SplitWs(s)[i])
    decreases |s|
  {
    var k := Span(s, NotSpace);
    if k < |s| {
      var n := Span(s[k..], IsJsSpace);
      var t := s[k + n..];
      SplitStep(s);
      PiecesAreWords(t);
      assert SplitWs(s) == [s[..k]] + SplitWs(t);
    }
  }

  /** One step of the split of a trimmed text: a word, then the trimmed rest. */
  lemma SplitStep(s: string)
    requires s != [] && IsTrimmed(s) && Span(s, NotSpace) < |s|
    ensures var k := Span(s, NotSpace); var t := s[k + Span(s[k..], IsJsSpace)..];
      Word(s[..k]) && t != [] && IsTrimmed(t) && |t| < |s|
  {
    var k := Span(s, NotSpace);
    var n := Span(s[k..], IsJsSpace);
    assert k > 0 by { assert NotSpace(s[0]); }
    FirstWord(s, k);
    RestAfterGap(s, k, n);
  }

  /** The run before the first whitespace is a word when it is not empty. */
  lemma FirstWord(s: string, k: nat)
    requires 0 < k <= |s| && forall i :: 0 <= i < k ==> NotSpace(s[i])
    ensures Word(s[..k])
  {
    assert forall i :: 0 <= i < k ==> s[..k][i] == s[i];
  }

  /** After a word and a non-empty whitespace gap, a trimmed text goes on trimmed and shorter. */
  lemma RestAfterGap(s: string, k: nat, n: nat)
    requires IsTrimmed(s) && 0 < k < |s| && IsJsSpace(s[k])
    requires n == Span(s[k..], IsJsSpace)
    ensures var t := s[k + n..]; t != [] && IsTrimmed(t) && |t| < |s|
  {
    var g := s[k..];
    assert g[0] == s[k];
    assert n >= 1;
    assert g[|g| - 1] == s[|s| - 1];
    assert k + n < |s|;
    var t := s[k + n..];
    assert t[0] == g[n];
    assert t[|t| - 1] == s[|s| - 1];
  }

  /** A word: at least one character, none of them whitespace. */
  predicate Word(w: string) {
    w != [] && forall i :: 0 <= i < |w| ==> !IsJsSpace(w[i])
  }

  /** Words joined by single spaces split back into exactly those words. */
  lemma {:induction false} SplitJoined(ws: seq<string>)
    requires ws != [] && forall i :: 0 <= i < |ws| ==> Word(ws[i])
    ensures SplitWs(Join(ws, " ")) == ws
    decreases |ws|
  {
    var w := ws[0];
    SpanUnique(w, NotSpace, |w|);
    if |ws| == 1 {
      assert Join(ws, " ") == w;
    } else {
      var rest := Join(ws[1..], " ");
      var s := w + " " + rest;
      assert Join(ws, " ") == s;
      SplitJoined(ws[1..]);
      assert ws[1..][0] == ws[1];
      assert rest != [] && !IsJsSpace(rest[0]) by {
        JoinStartsWith(ws[1..]);
      }
      SplitAfterWord(w, rest);
      assert ws == [w] + ws[1..];
    }
  }

  /** A word, one space and a text starting with a non-space split into the word and that text's pieces. */
  lemma SplitAfterWord(w: string, rest: string)
    requires Word(w) && rest != [] && !IsJsSpace(rest[0])
    ensures SplitWs(w + " " + rest) == [w] + SplitWs(rest)
  {
    var s := w + " " + rest;
    assert Span(s, NotSpace) == |w| by {
      assert forall i :: 0 <= i < |w| ==> s[i] == w[i];
      assert s[|w|] == ' ' && IsJsSpace(' ');
      SpanUnique(s, NotSpace, |w|);
    }
    assert Span(s[|w|..], IsJsSpace) == 1 by {
      assert s[|w|..] == [' '] + rest;
      SpanUnique(s[|w|..], IsJsSpace, 1);
    }
    assert s[..|w|] == w && s[|w| + 1..] == rest;
  }

  /** A join of words starts with the first word's first character. */
  lemma JoinStartsWith(ws: seq<string>)
    requires ws != [] && ws[0] != []
    ensures Join(ws, " ") != [] && Join(ws, " ")[0] == ws[0][0]
  {
  }

  /** `n` words separated by single spaces count as `n` words. */
  lemma WordCountOfWords(ws: seq<string>)
    requires ws != [] && forall i :: 0 <= i < |ws| ==> Word(ws[i])
    ensures WordCount(Join(ws, " ")) == |ws|
  {
    var s := Join(ws, " ");
    JoinStartsWith(ws);
    assert IsTrimmed(s) by {
      JoinEndsWith(ws);
    }
    TrimmedIff(s);
    SplitJoined(ws);
  }

  /** A join of words ends with the last word's last character. */
  lemma {:induction false} JoinEndsWith(ws: seq<string>)
    requires ws != [] && forall i :: 0 <= i < |ws| ==> Word(ws[i])
    ensures var s, l := Join(ws, " "), ws[|ws| - 1]; l != [] && s != [] && s[|s| - 1] == l[|l| - 1]
    decreases |ws|
  {
    if |ws| > 1 {
      var rest := ws[1..];
      assert forall i :: 0 <= i < |rest| ==> Word(rest[i]) by {
        forall i | 0 <= i < |rest| ensures Word(rest[i]) {
          assert rest[i] == ws[i + 1];
        }
      }
      JoinEndsWith(rest);
      var t := Join(rest, " ");
      assert Join(ws, " ") == (ws[0] + " ") + t;
      assert rest[|rest| - 1] == ws[|ws| - 1];
    } else {
      assert Word(ws[0]);
    }
  }

  /** Any text takes at least a minute, and the minutes are the fewest that hold its words at two hundred a minute. */
  lemma ReadingMinutesFacts(text: string)
    ensures var m, w := ReadingMinutes(text), WordCount(text);
      m >= 1 && w <= m * WordsPerMinute && (m - 1) * WordsPerMinute < w
    ensures IsBlank(text) ==> ReadingMinutes(text) == 1
  {
    CeilDivFacts(WordCount(text), WordsPerMinute);
    if IsBlank(text) {
      assert Span([], NotSpace) == 0;
    }
  }
}
