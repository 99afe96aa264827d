/** The two parsers of an IMAP flag list: one for fresh messages, one for the flag table. */
module ImapFlags {

  /** The permanent flags of a message. */
  datatype MsgFlags = MsgFlags(isNew: bool, unread: bool, marked: bool, deleted: bool, replied: bool, color: nat)

  /** The flags of the server, as kept in the flag table; no bit set means the message is not there. */
  datatype ImapFlags = ImapFlags(seen: bool, answered: bool, flagged: bool, deleted: bool, draft: bool, color: nat)

  const NO_IMAP_FLAGS := ImapFlags(false, false, false, false, false, 0)

  function Lower(c: char): char
  {
    if 'A' <= c <= 'Z' then c - 'A' + 'a' else c
  }

  /** g_ascii_strncasecmp(p, word, strlen(word)) == 0 */
  predicate StartsWith(p: string, word: string)
  {
    word == "" || (p != "" && Lower(p[0]) == Lower(word[0]) && StartsWith(p[1..], word[1..]))
  }

  predicate IsSpace(c: char)
  {
    c in {' ', '\t', '\n', '\r', '\U{000C}'}
  }

  function SkipWord(p: string): (r: string)
    ensures |r| <= |p|
    ensures p != [] && !IsSpace(p[0]) ==> |r| < |p|
  {
    if p == [] || IsSpace(p[0]) then p else SkipWord(p[1..])
  }

  function SkipSpaces(p: string): (r: string)
    ensures |r| <= |p|
    ensures p != [] && IsSpace(p[0]) ==> |r| < |p|
  {
    if p == [] || !IsSpace(p[0]) then p else SkipSpaces(p[1..])
  }

  function NextWord(p: string): (r: string)
    requires p != []
    ensures |r| < |p|
  {
    SkipSpaces(SkipWord(p))
  }

  function LabelColor(p: string): nat
  {
    if |p| > 6 && '1' <= p[6] <= '7' then (p[6] - '1') as nat + 1 else 0
  }

  /** The effect of the word at the front of p on the flags of a fresh message. */
  function MsgWord(p: string, f: MsgFlags): MsgFlags
  {
    if StartsWith(p, "\\Recent") && f.unread then f.(isNew := true)
    else if StartsWith(p, "\\Seen") then f.(isNew := false, unread := false)
    else if StartsWith(p, "\\Deleted") then f.(deleted := true)
    else if StartsWith(p, "\\Flagged") then f.(marked := true)
    else if StartsWith(p, "\\Answered") then f.(replied := true)
    else if StartsWith(p, "$label") && LabelColor(p) > 0 then f.(color := LabelColor(p))
    else f
  }

  function MsgWords(p: string, f: MsgFlags): MsgFlags
    decreases |p|
  {
    if p == [] then f else MsgWords(NextWord(p), MsgWord(p, f))
  }

  function FreshFlags(p: string): MsgFlags
  {
    MsgWords(p, MsgFlags(false, true, false, false, false, 0))
  }

  function ImapWord(p: string, f: ImapFlags): ImapFlags
  {
    if StartsWith(p, "\\Seen") then f.(seen := true)
    else if StartsWith(p, "\\Deleted") then f.(deleted := true)
    else if StartsWith(p, "\\Flagged") then f.(flagged := true)
    else if StartsWith(p, "\\Answered") then f.(answered := true)
    else if StartsWith(p, "$label") && LabelColor(p) > 0 then f.(color := LabelColor(p))
    else f
  }

  function ImapWords(p: string, f: ImapFlags): ImapFlags
    decreases |p|
  {
    if p == [] then f else ImapWords(NextWord(p), ImapWord(p, f))
  }

  /** The table entry imap_fetch_flags makes: the parsed flags with the draft bit forced on. */
  function TableFlags(p: string): ImapFlags
  {
    ImapWords(p, NO_IMAP_FLAGS).(draft := true)
  }

  /** imap_parse_flags */
  method ParseFlags(flagStr: string) returns (flags: MsgFlags)
    ensures flags == FreshFlags(flagStr)
  {
    var p := flagStr;
    flags := MsgFlags(false, true, false, false, false, 0);
    while p != []
      invariant MsgWords(p, flags) == FreshFlags(flagStr)
      decreases |p|
    {
      if StartsWith(p, "\\Recent") && flags.unread {
        flags := flags.(isNew := true);
      } else if StartsWith(p, "\\Seen") {
        flags := flags.(isNew := false, unread := false);
      } else if StartsWith(p, "\\Deleted") {
        flags := flags.(deleted := true);
      } else if StartsWith(p, "\\Flagged") {
        flags := flags.(marked := true);
      } else if StartsWith(p, "\\Answered") {
        flags := flags.(replied := true);
      } else if StartsWith(p, "$label") {
        if |p| > 6 && '1' <= p[6] <= '7' {
          flags := flags.(color := (p[6] - '1') as nat + 1);
        }
      }
      p := SkipSpaces(SkipWord(p));
    }
  }

  /** imap_parse_imap_flags, and the draft bit imap_fetch_flags adds. */
  method ParseImapFlags(flagStr: string) returns (flags: ImapFlags)
    ensures flags == TableFlags(flagStr)
  {
    var p := flagStr;
    flags := NO_IMAP_FLAGS;
    while p != []
      invariant ImapWords(p, flags).(draft := true) == TableFlags(flagStr)
      decreases |p|
    {
      if StartsWith(p, "\\Seen") {
        flags := flags.(seen := true);
      } else if StartsWith(p, "\\Deleted") {
        flags := flags.(deleted := true);
      } else if StartsWith(p, "\\Flagged") {
        flags := flags.(flagged := true);
      } else if StartsWith(p, "\\Answered") {
        flags := flags.(answered := true);
      } else if StartsWith(p, "$label") {
        if |p| > 6 && '1' <= p[6] <= '7' {
          flags := flags.(color := (p[6] - '1') as nat + 1);
        }
      }
      p := SkipSpaces(SkipWord(p));
    }
    flags := flags.(draft := true);
  }

  /** Same state as far as the flag table goes; the recent and draft bits are not shared. */
  predicate Agree(m: MsgFlags, i: ImapFlags)
  {
    m.unread == !i.seen && m.marked == i.flagged && m.replied == i.answered && m.deleted == i.deleted && m.color == i.color
  }

  lemma {:induction false} OneWordOnly(p: string, v: string, w: string, k: nat)
    requires StartsWith(p, v) && k < |v| && k < |w| && Lower(v[k]) != Lower(w[k])
    ensures !StartsWith(p, w)
    decreases k
  {
    if k > 0 && StartsWith(p, w) {
      OneWordOnly(p[1..], v[1..], w[1..], k - 1);
    }
  }

  lemma RecentOnly(p: string)
    requires StartsWith(p, "\\Recent")
    ensures !StartsWith(p, "\\Seen") && !StartsWith(p, "\\Deleted") && !StartsWith(p, "\\Flagged")
    ensures !StartsWith(p, "\\Answered") && !StartsWith(p, "$label")
  {
    hide StartsWith;
    OneWordOnly(p, "\\Recent", "\\Seen", 1);
    OneWordOnly(p, "\\Recent", "\\Deleted", 1);
    OneWordOnly(p, "\\Recent", "\\Flagged", 1);
    OneWordOnly(p, "\\Recent", "\\Answered", 1);
    OneWordOnly(p, "\\Recent", "$label", 0);
  }

  lemma WordAgrees(p: string, m: MsgFlags, i: ImapFlags)
    requires Agree(m, i)
    ensures Agree(MsgWord(p, m), ImapWord(p, i))
  {
    hide StartsWith, LabelColor;
    if StartsWith(p, "\\Recent") {
      RecentOnly(p);
    }
  }

  lemma {:induction false} WordsAgree(p: string, m: MsgFlags, i: ImapFlags)
    requires Agree(m, i)
    ensures Agree(MsgWords(p, m), ImapWords(p, i))
    decreases |p|
  {
    if p != [] {
      WordAgrees(p, m, i);
      WordsAgree(NextWord(p), MsgWord(p, m), ImapWord(p, i));
    }
  }

  /** The two parsers agree on every flag list, whatever its words, case and spacing. */
  lemma ParsersAgree(p: string)
    ensures Agree(FreshFlags(p), TableFlags(p)) && TableFlags(p) != NO_IMAP_FLAGS
  {
    WordsAgree(p, MsgFlags(false, true, false, false, false, 0), NO_IMAP_FLAGS);
  }

  // ---- What a flag list means ----

  predicate IsWord(w: string)
  {
    w != "" && forall k :: 0 <= k < |w| ==> !IsSpace(w[k])
  }

  predicate IsGap(g: string)
  {
    forall k :: 0 <= k < |g| ==> IsSpace(g[k])
  }

  /** Words, each with the white space after it; only the last one can go without. */
  predicate WellSpaced(words: seq<string>, gaps: seq<string>)
  {
    && |words| == |gaps|
    && (forall i :: 0 <= i < |words| ==> IsWord(words[i]) && IsGap(gaps[i]))
    && forall i :: 0 <= i < |gaps| - 1 ==> gaps[i] != ""
  }

  function Spaced(words: seq<string>, gaps: seq<string>): string
    requires |words| == |gaps|
  {
    if words == [] then "" else words[0] + gaps[0] + Spaced(words[1..], gaps[1..])
  }

  /** The word begins with v, letters in any case. */
  predicate Matches(w: string, v: string)
  {
    |w| >= |v| && forall k :: 0 <= k < |v| ==> Lower(w[k]) == Lower(v[k])
  }

  predicate Has(words: seq<string>, v: string)
  {
    exists i :: 0 <= i < |words| && Matches(words[i], v)
  }

  /** $label1 to $label7 */
  predicate IsLabel(w: string, color: nat)
  {
    Matches(w, "$label") && |w| > 6 && 1 <= color <= 7 && w[6] as int == '0' as int + color
  }

  ghost predicate NoLabel(w: string)
  {
    forall c :: !IsLabel(w, c)
  }

  /** The color of the last label, or 0 without any. */
  ghost predicate LastLabel(words: seq<string>, color: nat)
  {
    || (color == 0 && forall i :: 0 <= i < |words| ==> NoLabel(words[i]))
    || exists i :: 0 <= i < |words| && IsLabel(words[i], color) && forall j :: i < j < |words| ==> NoLabel(words[j])
  }

  ghost predicate Means(words: seq<string>, f: MsgFlags)
  {
    && (f.unread <==> !Has(words, "\\Seen"))
    && (f.isNew <==> Has(words, "\\Recent") && !Has(words, "\\Seen"))
    && (f.deleted <==> Has(words, "\\Deleted"))
    && (f.marked <==> Has(words, "\\Flagged"))
    && (f.replied <==> Has(words, "\\Answered"))
    && LastLabel(words, f.color)
  }

  predicate Plainly(v: string)
  {
    forall k :: 0 <= k < |v| ==> !IsSpace(v[k]) && !IsSpace(Lower(v[k]))
  }

  /** A word is compared as if it stood alone. */
  lemma {:induction false} WordMatches(w: string, rest: string, v: string)
    requires Plainly(v) && (rest == "" || IsSpace(rest[0]))
    ensures StartsWith(w + rest, v) <==> Matches(w, v)
    decreases |v|
  {
    if v != "" {
      if w == "" {
        assert w + rest == rest;
        assert rest != "" ==> Lower(rest[0]) == rest[0];
      } else {
        assert (w + rest)[1..] == w[1..] + rest;
        WordMatches(w[1..], rest, v[1..]);
        assert Matches(w, v) <==> Lower(w[0]) == Lower(v[0]) && Matches(w[1..], v[1..]) by {
          assert forall k :: 1 <= k < |v| && k < |w| ==> w[k] == w[1..][k - 1] && v[k] == v[1..][k - 1];
          assert forall k :: 0 <= k < |v[1..]| && k < |w[1..]| ==> w[1..][k] == w[k + 1] && v[1..][k] == v[k + 1];
        }
      }
    }
  }

  /** Which letters a word has that begins with one of the names; no word begins with two of them. */
  lemma Letters(w: string)
    ensures Matches(w, "\\Recent") ==> |w| > 1 && Lower(w[0]) == '\\' && Lower(w[1]) == 'r'
    ensures Matches(w, "\\Seen") ==> |w| > 1 && Lower(w[0]) == '\\' && Lower(w[1]) == 's'
    ensures Matches(w, "\\Deleted") ==> |w| > 1 && Lower(w[0]) == '\\' && Lower(w[1]) == 'd'
    ensures Matches(w, "\\Flagged") ==> |w| > 1 && Lower(w[0]) == '\\' && Lower(w[1]) == 'f'
    ensures Matches(w, "\\Answered") ==> |w| > 1 && Lower(w[0]) == '\\' && Lower(w[1]) == 'a'
    ensures Matches(w, "$label") ==> |w| > 1 && Lower(w[0]) == '$'
  {
    hide Matches;
    FirstTwo(w, "\\Recent");
    FirstTwo(w, "\\Seen");
    FirstTwo(w, "\\Deleted");
    FirstTwo(w, "\\Flagged");
    FirstTwo(w, "\\Answered");
    FirstTwo(w, "$label");
  }

  lemma FirstTwo(w: string, v: string)
    requires |v| > 1
    ensures Matches(w, v) ==> |w| > 1 && Lower(w[0]) == Lower(v[0]) && Lower(w[1]) == Lower(v[1])
  {
  }

  lemma NamesArePlain()
    ensures Plainly("\\Recent") && Plainly("\\Seen") && Plainly("\\Deleted")
    ensures Plainly("\\Flagged") && Plainly("\\Answered") && Plainly("$label")
  {
  }

  /** Which names begin the text at a word. */
  lemma WordStarts(w: string, rest: string)
    requires rest == "" || IsSpace(rest[0])
    ensures StartsWith(w + rest, "\\Recent") <==> Matches(w, "\\Recent")
    ensures StartsWith(w + rest, "\\Seen") <==> Matches(w, "\\Seen")
    ensures StartsWith(w + rest, "\\Deleted") <==> Matches(w, "\\Deleted")
    ensures StartsWith(w + rest, "\\Flagged") <==> Matches(w, "\\Flagged")
    ensures StartsWith(w + rest, "\\Answered") <==> Matches(w, "\\Answered")
    ensures StartsWith(w + rest, "$label") <==> Matches(w, "$label")
  {
    hide StartsWith, Matches;
    NamesArePlain();
    WordMatches(w, rest, "\\Recent");
    WordMatches(w, rest, "\\Seen");
    WordMatches(w, rest, "\\Deleted");
    WordMatches(w, rest, "\\Flagged");
    WordMatches(w, rest, "\\Answered");
    WordMatches(w, rest, "$label");
  }

  lemma LabelAtWord(w: string, rest: string)
    requires rest == "" || IsSpace(rest[0])
    requires Matches(w, "$label")
    ensures LabelColor(w + rest) == 0 ==> NoLabel(w)
    ensures LabelColor(w + rest) > 0 ==> IsLabel(w, LabelColor(w + rest)) && forall c :: IsLabel(w, c) ==> c == LabelColor(w + rest)
  {
    assert |w| == 6 && rest != "" ==> (w + rest)[6] == rest[0];
    hide Matches;
  }

  lemma NotALabel(w: string)
    requires !Matches(w, "$label")
    ensures NoLabel(w)
  {
  }

  /** What the first word does to the flags. */
  lemma WordEffect(w: string, rest: string, f: MsgFlags)
    requires rest == "" || IsSpace(rest[0])
    ensures var r := MsgWord(w + rest, f);
      && r.unread == (f.unread && !Matches(w, "\\Seen"))
      && r.isNew == (!Matches(w, "\\Seen") && (f.isNew || (Matches(w, "\\Recent") && f.unread)))
      && r.deleted == (f.deleted || Matches(w, "\\Deleted"))
      && r.marked == (f.marked || Matches(w, "\\Flagged"))
      && r.replied == (f.replied || Matches(w, "\\Answered"))
      && ((NoLabel(w) && r.color == f.color) || IsLabel(w, r.color))
  {
    hide StartsWith, Matches, LabelColor, IsLabel, NoLabel;
    Letters(w);
    WordStarts(w, rest);
    if Matches(w, "$label") {
      LabelAtWord(w, rest);
    } else {
      NotALabel(w);
    }
  }

  lemma {:induction false} HasMore(words: seq<string>, w: string, v: string)
    ensures Has(words + [w], v) <==> Has(words, v) || Matches(w, v)
  {
    hide Matches;
    var all := words + [w];
    assert all[|words|] == w && forall i :: 0 <= i < |words| ==> all[i] == words[i];
  }

  lemma LastLabelMore(words: seq<string>, w: string, color: nat, color': nat)
    requires LastLabel(words, color) && ((NoLabel(w) && color' == color) || IsLabel(w, color'))
    ensures LastLabel(words + [w], color')
  {
    hide NoLabel, IsLabel;
    var all := words + [w];
    assert all[|words|] == w && forall i :: 0 <= i < |words| ==> all[i] == words[i];
    if IsLabel(w, color') {
      assert IsLabel(all[|words|], color');
    } else if exists i :: 0 <= i < |words| && IsLabel(words[i], color) && forall j :: i < j < |words| ==> NoLabel(words[j]) {
      var i :| 0 <= i < |words| && IsLabel(words[i], color) && forall j :: i < j < |words| ==> NoLabel(words[j]);
      assert IsLabel(all[i], color);
    }
  }

  lemma MeansMore(words: seq<string>, w: string, rest: string, f: MsgFlags)
    requires Means(words, f) && (rest == "" || IsSpace(rest[0]))
    ensures Means(words + [w], MsgWord(w + rest, f))
  {
    hide Has, LastLabel, MsgWord, IsLabel, NoLabel, Matches;
    WordEffect(w, rest, f);
    HasMore(words, w, "\\Seen");
    HasMore(words, w, "\\Recent");
    HasMore(words, w, "\\Deleted");
    HasMore(words, w, "\\Flagged");
    HasMore(words, w, "\\Answered");
    LastLabelMore(words, w, f.color, MsgWord(w + rest, f).color);
  }

  lemma {:induction false} WordIsSkipped(w: string, rest: string)
    requires (forall k :: 0 <= k < |w| ==> !IsSpace(w[k])) && (rest == "" || IsSpace(rest[0]))
    ensures SkipWord(w + rest) == rest
    decreases |w|
  {
    if w == "" {
      assert w + rest == rest;
    } else {
      assert (w + rest)[1..] == w[1..] + rest;
      WordIsSkipped(w[1..], rest);
    }
  }

  lemma {:induction false} GapIsSkipped(g: string, rest: string)
    requires IsGap(g) && (rest == "" || !IsSpace(rest[0]))
    ensures SkipSpaces(g + rest) == rest
    decreases |g|
  {
    if g == "" {
      assert g + rest == rest;
    } else {
      assert (g + rest)[1..] == g[1..] + rest;
      GapIsSkipped(g[1..], rest);
    }
  }

  lemma SpacedStarts(words: seq<string>, gaps: seq<string>)
    requires WellSpaced(words, gaps)
    ensures words == [] ==> Spaced(words, gaps) == ""
    ensures words != [] ==> Spaced(words, gaps) != "" && !IsSpace(Spaced(words, gaps)[0])
  {
    hide IsSpace;
  }

  /** The rest of a list, from its second word on. */
  lemma SpacedNext(words: seq<string>, gaps: seq<string>)
    requires WellSpaced(words, gaps) && words != []
    ensures WellSpaced(words[1..], gaps[1..])
    ensures var p, more := Spaced(words, gaps), Spaced(words[1..], gaps[1..]);
      && p == words[0] + (gaps[0] + more) && NextWord(p) == more
      && (gaps[0] + more == "" || IsSpace((gaps[0] + more)[0]))
  {
    var w, g, more := words[0], gaps[0], Spaced(words[1..], gaps[1..]);
    assert WellSpaced(words[1..], gaps[1..]);
    SpacedStarts(words[1..], gaps[1..]);
    assert IsWord(w) && IsGap(g);
    hide IsSpace, Spaced;
    assert g == "" ==> more == "";
    WordIsSkipped(w, g + more);
    GapIsSkipped(g, more);
    assert w + g + more == w + (g + more);
  }

  lemma {:induction false} WordsMean(read: seq<string>, words: seq<string>, gaps: seq<string>, f: MsgFlags)
    requires WellSpaced(words, gaps) && Means(read, f)
    ensures Means(read + words, MsgWords(Spaced(words, gaps), f))
    decreases |words|
  {
    hide Means, MsgWord, Spaced, NextWord, IsSpace, IsWord, IsGap;
    SpacedStarts(words, gaps);
    if words == [] {
      assert read + words == read;
    } else {
      SpacedNext(words, gaps);
      MeansMore(read, words[0], gaps[0] + Spaced(words[1..], gaps[1..]), f);
      WordsMean(read + [words[0]], words[1..], gaps[1..], MsgWord(Spaced(words, gaps), f));
      assert read + words == (read + [words[0]]) + words[1..];
    }
  }

  lemma GapChangesNothing(g: string, p: string, f: MsgFlags)
    requires IsGap(g) && (p == "" || !IsSpace(p[0]))
    ensures MsgWords(g + p, f) == MsgWords(p, f)
  {
    if g == "" {
      assert g + p == p;
    } else {
      WordEffect("", g + p, f);
      NothingMatches();
      assert "" + (g + p) == g + p;
      WordIsSkipped("", g + p);
      GapIsSkipped(g, p);
      hide MsgWord, Matches, IsLabel, NoLabel, IsSpace;
      assert MsgWord(g + p, f) == f;
    }
  }

  lemma NothingMatches()
    ensures !Matches("", "\\Seen") && !Matches("", "\\Recent") && !Matches("", "\\Deleted")
    ensures !Matches("", "\\Flagged") && !Matches("", "\\Answered") && forall c :: !IsLabel("", c)
  {
  }

  lemma NothingMeans()
    ensures Means([], MsgFlags(false, true, false, false, false, 0))
  {
  }

  /**
   What the parser of fresh messages makes of a list of words with any white space between
   and around them: each flag is set exactly when one of the words names it, in any case.
   */
  lemma FlagsMean(lead: string, words: seq<string>, gaps: seq<string>)
    requires IsGap(lead) && WellSpaced(words, gaps)
    ensures Means(words, FreshFlags(lead + Spaced(words, gaps)))
  {
    hide Means, Spaced, MsgWords, IsSpace, IsWord;
    var f := MsgFlags(false, true, false, false, false, 0);
    NothingMeans();
    SpacedStarts(words, gaps);
    GapChangesNothing(lead, Spaced(words, gaps), f);
    WordsMean([], words, gaps, f);
    assert [] + words == words;
  }

  /** The entry that the other parser makes of it. */
  lemma TableFlagsMean(lead: string, words: seq<string>, gaps: seq<string>)
    requires IsGap(lead) && WellSpaced(words, gaps)
    ensures var t := TableFlags(lead + Spaced(words, gaps));
      && (t.seen <==> Has(words, "\\Seen"))
      && (t.deleted <==> Has(words, "\\Deleted"))
      && (t.flagged <==> Has(words, "\\Flagged"))
      && (t.answered <==> Has(words, "\\Answered"))
      && LastLabel(words, t.color) && t.draft
  {
    hide Has, LastLabel, Spaced, FreshFlags, ImapWords, IsWord, IsGap;
    FlagsMean(lead, words, gaps);
    ParsersAgree(lead + Spaced(words, gaps));
  }

  /** There is no other flag list than words with white space. */
  lemma {:induction false} EveryListIsWords(p: string) returns (lead: string, words: seq<string>, gaps: seq<string>)
    ensures IsGap(lead) && WellSpaced(words, gaps) && p == lead + Spaced(words, gaps)
    decreases |p|
  {
    if p == "" {
      lead, words, gaps := "", [], [];
    } else {
      var l, ws, gs := EveryListIsWords(p[1..]);
      assert p == [p[0]] + p[1..];
      if IsSpace(p[0]) {
        lead, words, gaps := [p[0]] + l, ws, gs;
      } else if l == "" && ws != [] {
        lead, words, gaps := "", ws[0 := [p[0]] + ws[0]], gs;
        assert words[1..] == ws[1..];
      } else {
        lead, words, gaps := "", [[p[0]]] + ws, [l] + gs;
        assert words[1..] == ws && gaps[1..] == gs;
      }
    }
  }
}
