/** The caption text of xfce/.wallpapers/wallBing.py (`get_text_from_url`):
    the first <h1> and <h3> of the item's page, joined by a newline, with
    blank lines dropped. Fetching and parsing the page are outside the model;
    their outcome is a `Page`. */
module Caption {
  import opened Common
  import opened Text

  /** What requests + BeautifulSoup made of the page: the request or parse
      failed (the exception is caught and logged), or the stripped text of
      the first <h1> and <h3>, None when the page has no such element. */
  datatype Page = Unreachable | Parsed(h1: Option<string>, h3: Option<string>)

  /** The caption built from the two headings: the title and the subtitle
      joined by a newline, split into lines, blank lines dropped and the
      rest joined by newlines again. Its lines are the non-blank lines of
      the title followed by those of the subtitle, none of them blank, and
      it is empty exactly when both headings are blank (in particular when
      both are missing). */
  function CaptionText(title: string, subtitle: string): (text: string)
    ensures Lines(text) == NonBlank(Lines(title)) + NonBlank(Lines(subtitle))
    ensures forall l | l in Lines(text) :: !IsBlank(l)
    ensures text == "" <==> IsBlank(title) && IsBlank(subtitle)
  {
    var kept := NonBlank(Lines(title + "\n" + subtitle));
    NonBlankMembers(Lines(title + "\n" + subtitle));
    assert forall l | l in kept :: l != [] && NoBreak(l);
    LinesOfJoin(kept);
    NonBlankLinesOfJoined(title, subtitle);
    NonBlankLinesEmpty(title);
    NonBlankLinesEmpty(subtitle);
    assert kept != [] ==> kept[0] in kept;
    JoinLinesNonEmpty(kept);
    JoinLines(kept)
  }

  /** get_text_from_url, given the page it fetched. */
  function GetTextFromUrl(page: Page): (text: string)
    ensures page.Unreachable? ==> text == ""
    ensures page == Parsed(None, None) ==> text == ""
    ensures page.Parsed? ==>
              (text == "" <==> IsBlank(page.h1.GetOr("")) && IsBlank(page.h3.GetOr("")))
    ensures forall l | l in Lines(text) :: !IsBlank(l)
  {
    match page
    case Unreachable => ""
    case Parsed(h1, h3) => CaptionText(h1.GetOr(""), h3.GetOr(""))
  }

  /** With a one-line title and subtitle, neither blank, the caption is
      exactly "title\nsubtitle"; a blank subtitle leaves the title alone. */
  lemma CaptionOfTwoLines(title: string, subtitle: string)
    requires NoBreak(title) && !IsBlank(title) && NoBreak(subtitle)
    ensures !IsBlank(subtitle) ==> CaptionText(title, subtitle) == title + "\n" + subtitle
    ensures IsBlank(subtitle) ==> CaptionText(title, subtitle) == title
  {
    NonBlankLinesOfJoined(title, subtitle);
    FirstBreakOfNoBreak(title);
    assert title[..|title|] == title;
    assert Lines(title) == [title];
    assert NonBlank([title]) == [title];
    if subtitle == [] {
      assert NonBlank(Lines(subtitle)) == [];
    } else {
      FirstBreakOfNoBreak(subtitle);
      assert subtitle[..|subtitle|] == subtitle;
      assert Lines(subtitle) == [subtitle];
      if !IsBlank(subtitle) {
        assert NonBlank([subtitle]) == [subtitle];
        assert JoinLines([title, subtitle]) == title + "\n" + JoinLines([subtitle]);
      }
    }
  }

  lemma JoinLinesNonEmpty(ls: seq<string>)
    ensures ls != [] && ls[0] != [] ==> JoinLines(ls) != []
  {
  }

  lemma BreakIsSpace(c: char)
    requires IsLineBreak(c)
    ensures IsSpace(c)
  {
  }

  /** A string has no non-blank line exactly when it is blank. */
  lemma {:induction false} NonBlankLinesEmpty(s: string)
    ensures NonBlank(Lines(s)) == [] <==> IsBlank(s)
    decreases |s|
  {
    if s != [] {
      var k := FirstBreak(s);
      if k == |s| {
        assert s[..k] == s;
        assert Lines(s) == [s];
      } else {
        var w := BreakWidth(s, k);
        var rest := s[k + w..];
        NonBlankAppend([s[..k]], Lines(rest));
        NonBlankLinesEmpty(rest);
        BreakIsSpace(s[k]);
        if w == 2 {
          BreakIsSpace(s[k + 1]);
        }
        BlankAroundBreak(s, k, w);
      }
    }
  }

  /** A text whose characters k .. k+w-1 are spaces is blank exactly when
      what comes before and after them is. */
  lemma BlankAroundBreak(s: string, k: nat, w: nat)
    requires k + w <= |s|
    requires forall i | k <= i < k + w :: IsSpace(s[i])
    ensures IsBlank(s) <==> IsBlank(s[..k]) && IsBlank(s[k + w..])
  {
    if IsBlank(s[..k]) && IsBlank(s[k + w..]) {
      forall i | 0 <= i < |s| ensures IsSpace(s[i]) {
        if i < k { assert s[i] == s[..k][i]; }
        else if i >= k + w { assert s[i] == s[k + w..][i - k - w]; }
      }
    }
  }

  lemma FirstBreakOfPrefix(a: string, x: string)
    requires FirstBreak(a) < |a|
    ensures FirstBreak(a + x) == FirstBreak(a)
  {
    if !IsLineBreak(a[0]) {
      assert (a + x)[1..] == a[1..] + x;
      FirstBreakOfPrefix(a[1..], x);
    }
  }

  /** Joining two texts with "\n" and splitting again keeps the non-blank
      lines of each, in order (a "\r" ending the first text merges with the
      "\n" into a single break, which changes only blank lines). */
  lemma {:induction false} NonBlankLinesOfJoined(a: string, b: string)
    ensures NonBlank(Lines(a + "\n" + b)) == NonBlank(Lines(a)) + NonBlank(Lines(b))
    decreases |a|
  {
    var k := FirstBreak(a);
    if k == |a| {
      JoinedAtFirstBreak(a, b);
    } else if a[k] == '\r' && k + 1 == |a| {
      JoinedAtTrailingCr(a, b);
    } else {
      var a' := a[k + BreakWidth(a, k)..];
      JoinedBeforeBreak(a, b, k, a');
      NonBlankLinesOfJoined(a', b);
      Regroup([a[..k]], Lines(a' + "\n" + b), Lines(a'), Lines(b));
    }
  }

  lemma Regroup(head: seq<string>, joined: seq<string>, tail: seq<string>, after: seq<string>)
    requires NonBlank(joined) == NonBlank(tail) + NonBlank(after)
    ensures NonBlank(head + joined) == NonBlank(head + tail) + NonBlank(after)
  {
    NonBlankAppend(head, joined);
    NonBlankAppend(head, tail);
    AppendAssoc(NonBlank(head), NonBlank(tail), NonBlank(after));
  }

  /** a has no break: the joining "\n" ends a's only line. */
  lemma JoinedAtFirstBreak(a: string, b: string)
    requires FirstBreak(a) == |a|
    ensures NonBlank(Lines(a + "\n" + b)) == NonBlank(Lines(a)) + NonBlank(Lines(b))
  {
    var s := a + "\n" + b;
    assert s == a + ("\n" + b);
    FirstBreakAt(a, "\n" + b);
    assert s[..|a|] == a && s[|a|] == '\n' && s[|a| + 1..] == b;
    assert Lines(s) == [a] + Lines(b);
    NonBlankAppend([a], Lines(b));
    if a != [] {
      assert a[..|a|] == a;
      assert Lines(a) == [a];
    } else {
      assert NonBlank([a]) == [];
    }
  }

  /** a ends with its first break, a lone "\r": with the joining "\n" it
      forms one "\r\n" break. */
  lemma JoinedAtTrailingCr(a: string, b: string)
    requires FirstBreak(a) == |a| - 1 && a[|a| - 1] == '\r'
    ensures NonBlank(Lines(a + "\n" + b)) == NonBlank(Lines(a)) + NonBlank(Lines(b))
  {
    var k := |a| - 1;
    var s := a + "\n" + b;
    FirstBreakOfPrefix(a, "\n" + b);
    assert s == a + ("\n" + b);
    assert s[..k] == a[..k];
    assert s[k] == '\r' && s[k + 1] == '\n';
    assert BreakWidth(s, k) == 2;
    assert s[k + 2..] == b;
    assert Lines(s) == [a[..k]] + Lines(b);
    assert BreakWidth(a, k) == 1;
    assert a[k + 1..] == [];
    assert Lines(a) == [a[..k]];
    NonBlankAppend([a[..k]], Lines(b));
  }

  /** One step of splitlines: the first line, then the lines after its break. */
  lemma LinesStep(s: string, k: nat, w: nat)
    requires k == FirstBreak(s) < |s| && w == BreakWidth(s, k)
    ensures Lines(s) == [s[..k]] + Lines(s[k + w..])
  {
  }

  /** a's first break lies inside a and is kept as is by the join. */
  lemma JoinedBeforeBreak(a: string, b: string, k: nat, a': string)
    requires k == FirstBreak(a) < |a|
    requires !(a[k] == '\r' && k + 1 == |a|)
    requires a' == a[k + BreakWidth(a, k)..]
    ensures Lines(a + "\n" + b) == [a[..k]] + Lines(a' + "\n" + b)
    ensures Lines(a) == [a[..k]] + Lines(a')
  {
    var t := "\n" + b;
    var s := a + t;
    AppendAssoc(a, "\n", b);
    AppendAssoc(a', "\n", b);
    FirstBreakOfPrefix(a, t);
    var w := BreakWidth(a, k);
    AppendSlices(a, t, k);
    AppendSlices(a, t, k + w);
    assert s[k] == a[k];
    if k + 1 < |a| {
      assert s[k + 1] == a[k + 1];
    }
    assert BreakWidth(s, k) == w;
    LinesStep(s, k, w);
    LinesStep(a, k, w);
  }
}
