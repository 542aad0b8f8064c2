/** Name normalisation as `addPlayer` performs it: split on single spaces,
    capitalise each word, rejoin with single spaces. */
module Names {
  import opened Text

  /** One word: its first character upper-cased followed by the rest
      lower-cased; the empty word (between two adjacent spaces) stays empty. */
  function CapitaliseWord(w: string): (r: string)
    ensures |r| == |w|
    ensures IsCapitalised(r)
    ensures LowerString(r) == LowerString(w)
  {
    if w == [] then []
    else
      assert forall i :: 0 <= i < |w| - 1 ==> LowerChar(w[1..][i]) == LowerChar(LowerChar(w[1..][i]));
      [UpperChar(w[0])] + LowerString(w[1..])
  }

  /** Reference definition, character by character: a character that starts
      the string or follows a space is upper-cased, every other one is
      lower-cased. */
  function TitleCaseChars(s: string): (r: string)
    ensures |r| == |s|
  {
    seq(|s|, i requires 0 <= i < |s| => if i == 0 || s[i - 1] == ' ' then UpperChar(s[i]) else LowerChar(s[i]))
  }

  /** Capitalise every word of a word list. */
  function CapitaliseAll(ws: seq<string>): (r: seq<string>)
    ensures |r| == |ws|
    ensures forall i :: 0 <= i < |ws| ==> r[i] == CapitaliseWord(ws[i])
  {
    seq(|ws|, i requires 0 <= i < |ws| => CapitaliseWord(ws[i]))
  }

  /** A word without spaces is title-cased exactly as `CapitaliseWord` does. */
  lemma CapitaliseWordIsTitleCase(w: string)
    requires ' ' !in w
    ensures CapitaliseWord(w) == TitleCaseChars(w)
  {
    if w != [] {
      assert forall i :: 0 <= i < |w| ==> w[i] != ' ';
    }
  }

  /** Title-casing distributes over a space. */
  lemma TitleCaseAroundSpace(a: string, b: string)
    ensures TitleCaseChars(a + [' '] + b) == TitleCaseChars(a) + [' '] + TitleCaseChars(b)
  {
    var s := a + [' '] + b;
    var lhs := TitleCaseChars(s);
    var rhs := TitleCaseChars(a) + [' '] + TitleCaseChars(b);
    forall i | 0 <= i < |s|
      ensures lhs[i] == rhs[i]
    {
      if i == |a| {
        CaseMappingFacts(' ');
      } else if i > |a| {
        assert s[i] == b[i - |a| - 1];
        if i > |a| + 1 {
          assert s[i - 1] == b[i - |a| - 2];
        }
      }
    }
  }

  /** Capitalising each space-free word and joining with spaces is title-casing
      the joined string. */
  lemma {:induction false} JoinCapitalised(ws: seq<string>)
    requires |ws| >= 1
    requires forall i :: 0 <= i < |ws| ==> ' ' !in ws[i]
    ensures Join(CapitaliseAll(ws), ' ') == TitleCaseChars(Join(ws, ' '))
    decreases |ws|
  {
    CapitaliseWordIsTitleCase(ws[0]);
    if |ws| > 1 {
      JoinCapitalised(ws[1..]);
      assert CapitaliseAll(ws)[1..] == CapitaliseAll(ws[1..]);
      TitleCaseAroundSpace(ws[0], Join(ws[1..], ' '));
    }
  }

  /** Title-casing changes letter case only: spaces and whitespace stay
      where they are and nothing else becomes either. */
  lemma TitleCaseShape(s: string)
    ensures forall i :: 0 <= i < |s| ==> (TitleCaseChars(s)[i] == ' ' <==> s[i] == ' ')
    ensures forall i :: 0 <= i < |s| ==> (IsWhitespace(TitleCaseChars(s)[i]) <==> IsWhitespace(s[i]))
  {
    forall i | 0 <= i < |s|
      ensures TitleCaseChars(s)[i] == ' ' <==> s[i] == ' '
      ensures IsWhitespace(TitleCaseChars(s)[i]) <==> IsWhitespace(s[i])
    {
      CaseMappingFacts(s[i]);
    }
  }

  /** Capitalising the words of the split and joining them back is
      title-casing. */
  lemma SplitCapitaliseJoin(s: string)
    ensures Join(CapitaliseAll(Split(s, ' ')), ' ') == TitleCaseChars(s)
  {
    SplitPieces(s, ' ');
    JoinSplit(s, ' ');
    JoinCapitalised(Split(s, ' '));
  }

  /** The normalised form of an (already trimmed) name: script.js splits on
      `' '`, capitalises each word and joins with `' '`. */
  function Normalize(s: string): (r: string)
    ensures r == TitleCaseChars(s)
    ensures |r| == |s|
    ensures forall i :: 0 <= i < |s| ==> (r[i] == ' ' <==> s[i] == ' ')
    ensures forall i :: 0 <= i < |s| ==> (IsWhitespace(r[i]) <==> IsWhitespace(s[i]))
  {
    SplitCapitaliseJoin(s);
    TitleCaseShape(s);
    Join(CapitaliseAll(Split(s, ' ')), ' ')
  }

  /** Normalising an already normalised name changes nothing. */
  lemma NormalizeIdempotent(s: string)
    ensures Normalize(Normalize(s)) == Normalize(s)
  {
    var n := Normalize(s);
    forall i | 0 <= i < |s|
      ensures Normalize(n)[i] == n[i]
    {
      CaseMappingFacts(s[i]);
      if i > 0 {
        CaseMappingFacts(s[i - 1]);
      }
    }
  }

  /** Normalisation changes letter case only, so a case-insensitive comparison
      cannot tell a name from its normalised form. */
  lemma NormalizeKeepsLowerCase(s: string)
    ensures LowerString(Normalize(s)) == LowerString(s)
  {
    forall i | 0 <= i < |s|
      ensures LowerString(Normalize(s))[i] == LowerString(s)[i]
    {
      CaseMappingFacts(s[i]);
    }
  }

  /** A word that starts with no lower-case ASCII letter and continues with
      no upper-case one. */
  predicate IsCapitalised(w: string) {
    && (w != [] ==> !('a' <= w[0] <= 'z'))
    && forall i :: 1 <= i < |w| ==> !('A' <= w[i] <= 'Z')
  }

  /** The words of a normalised name are the capitalised words of the input,
      one for one, each starting upper-case and continuing lower-case. */
  lemma NormalizedWords(s: string)
    ensures Split(Normalize(s), ' ') == CapitaliseAll(Split(s, ' '))
    ensures forall w :: w in Split(Normalize(s), ' ') ==> IsCapitalised(w)
  {
    var ws := Split(s, ' ');
    var cs := CapitaliseAll(ws);
    SplitPieces(s, ' ');
    forall i | 0 <= i < |cs|
      ensures ' ' !in cs[i] && IsCapitalised(cs[i])
    {
      var w := ws[i];
      if w != [] {
        CaseMappingFacts(w[0]);
        forall j | 1 <= j < |w|
          ensures cs[i][j] != ' ' && !('A' <= cs[i][j] <= 'Z')
        {
          assert cs[i][j] == LowerChar(w[j]);
          CaseMappingFacts(w[j]);
        }
      }
    }
    SplitJoin(cs, ' ');
  }
}
