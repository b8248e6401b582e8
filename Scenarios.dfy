/**
  Worked inputs: what the rules do on a few concrete addresses.
*/
module Scenarios {
  import opened Wrappers
  import opened Text
  import opened Regexes
  import opened Postman
  import opened Restoration

  /** 二丁目 written with the ordinary numeral 二 (U+4E8C). */
  const NiChome: string := "\U{4E8C}\U{4E01}\U{76EE}"

  /** ⼆丁目 written with the Kangxi radical ⼆ (U+2F06). */
  const RadicalNiChome: string := "\U{2F06}\U{4E01}\U{76EE}"

  /** The numeral classes hold the Kangxi radicals, not the ordinary numerals:
      二丁目 is not a chome, while ⼆丁目 is. */
  lemma OrdinaryNumeralMissed()
    ensures FindAll(Chome, NiChome) == []
  {
    var s := NiChome;
    var f := Attempt(Chome);
    assert !IsNumeral(s[0]) && !IsNumeral(s[1]) && !IsNumeral(s[2]);
    assert f(s, 0).None? && f(s, 1).None? && f(s, 2).None?;
    ScanEmpty(f, s, 0);
  }

  lemma RadicalNumeralFound()
    ensures FindAll(Chome, RadicalNiChome) == [RadicalNiChome]
  {
    var s := RadicalNiChome;
    var f := Attempt(Chome);
    RadicalNumeralChome();
    assert f(s, 0) == Some(Match(3, s));
    assert ScanWith(f, s, 3) == [];
    ScanLeftmost(f, s, 0, 0, Match(3, s));
  }

  lemma RadicalNumeralChome()
    ensures CounterAt(RadicalNiChome, 0, IsChomeCounter) == Some(Match(3, RadicalNiChome))
  {
    var s := RadicalNiChome;
    assert IsNumeral(s[0]) && !IsNumeral(s[1]);
    assert Run(s, 1, IsNumeral) == 0;
    assert Run(s, 0, IsNumeral) == 1;
    assert IsChomeCounter(s[1]) && IsChomeCounter(s[2]);
    assert Run(s, 3, IsChomeCounter) == 0;
    assert Run(s, 1, IsChomeCounter) == 2;
    assert s[0..3] == s;
  }

  /** 3号 */
  const Go3: string := "3\U{53F7}"

  /** 3号 3号 */
  const Go3Twice: string := "3\U{53F7} 3\U{53F7}"

  lemma Go3First()
    ensures MatchAt(Go, Go3Twice, 0) == Some(Match(2, Go3))
  {
    var s := Go3Twice;
    assert Run(s, 1, IsNumeral) == 0;
    assert Run(s, 0, IsNumeral) == 1;
    assert Run(s, 2, IsGoCounter) == 0;
    assert Run(s, 1, IsGoCounter) == 1;
    assert s[0..2] == Go3;
  }

  lemma Go3Second()
    ensures MatchAt(Go, Go3Twice, 3) == Some(Match(2, Go3))
  {
    var s := Go3Twice;
    assert Run(s, 4, IsNumeral) == 0;
    assert Run(s, 3, IsNumeral) == 1;
    assert Run(s, 5, IsGoCounter) == 0;
    assert Run(s, 4, IsGoCounter) == 1;
    assert s[3..5] == Go3;
  }

  lemma Go3TwiceMatches()
    ensures FindAll(Go, Go3Twice) == [Go3, Go3]
  {
    var s := Go3Twice;
    var f := Attempt(Go);
    Go3First();
    Go3Second();
    assert Run(s, 2, IsNumeral) == 0;
    assert f(s, 0) == MatchAt(Go, s, 0);
    assert f(s, 2) == None;
    assert f(s, 3) == MatchAt(Go, s, 3);
    assert ScanWith(f, s, 5) == [];
    assert ScanWith(f, s, 3) == [Go3];
    assert ScanWith(f, s, 2) == [Go3];
  }

  lemma Go3TwiceReplaced()
    ensures ReplaceEach(Go3Twice, [Go3, Go3], Substitute(Go)) == Substitute(Go) + " " + Substitute(Go)
  {
    var p, sub := Go3, Substitute(Go);
    var once := sub + " " + sub;
    Go3TwiceOnce();
    assert Avoids(p, sub) by {
      assert sub == " #GO# ";
    }
    assert forall k: nat :: !OccursAt(once, p, k) by {
      ReplaceGone(Go3Twice, p, sub);
    }
    ReplaceAbsent(once, p, sub);
    assert [p, p][1..] == [p] && [p][1..] == [];
    assert ReplaceEach(once, [p], sub) == ReplaceEach(once, [], sub);
    assert ReplaceEach(Go3Twice, [p, p], sub) == ReplaceEach(once, [p], sub);
  }

  /** The first replacement of 3号 rewrites both occurrences. */
  lemma Go3TwiceOnce()
    ensures ReplaceAll(Go3Twice, Go3, Substitute(Go)) == Substitute(Go) + " " + Substitute(Go)
  {
    var p, sub := Go3, Substitute(Go);
    assert Go3Twice == p + (" " + p);
    ReplaceFront(p, " " + p, sub);
    assert " " + p == " " + p + "";
    assert !OccursAt(" " + p + "", p, 0);
    ReplaceLeftmost(" ", p, "", sub);
    assert ReplaceAll("", p, sub) == "";
  }

  lemma Go3TwiceCollapsed()
    ensures Collapse(Substitute(Go) + " " + Substitute(Go)) == Marker(Go) + " " + Marker(Go)
  {
    var m := Marker(Go);
    MarkerShape(Go);
    var x := Substitute(Go) + " " + Substitute(Go);
    assert x == " " + m + " " + (" " + " " + m + " ");
    SplitPadded(m, " " + " " + m + " ");
    SplitSpace(" " + " " + m + " ");
    assert (" " + " " + m + " ")[1..] == " " + m + " " + "";
    SplitPadded(m, "");
    assert Split(x) == [m, m];
    CollapseNormal(x);
  }

  /** "3号 3号" under the GO rule: both matches are recorded, the first
      replacement already rewrites both occurrences (the second finds nothing
      left), and the text becomes "#GO# #GO#". */
  lemma Go3TwiceNormalized()
    ensures Normalized(Go, Substitute(Go), Go3Twice) == ([Go3, Go3], Marker(Go) + " " + Marker(Go))
  {
    Go3TwiceMatches();
    Go3TwiceReplaced();
    Go3TwiceCollapsed();
  }

  /** 港区 */
  const Minato: string := "\U{6E2F}\U{533A}"

  /** The group the KU pattern takes on "#TO# #KAI# 港区": the KAI marker with the ward. */
  const KaiWard: string := Marker(Kai) + " " + Minato

  /** What the TO and KAI rules leave of "東京都3階港区": "#TO# #KAI# 港区". */
  const AfterKai: string := Marker(To) + " " + KaiWard

  /** On "#TO# #KAI# 港区" the KU match starts at 0 and its group runs to the end,
      taking the KAI marker with it. */
  lemma KuTakesKai()
    ensures KuAt(AfterKai, 0) == Some(Match(|AfterKai|, KaiWard))
  {
    var s := AfterKai;
    assert |s| == 13 && s[..5] == WardAnchor && s[5..] == KaiWard;
    forall x | 5 <= x < 13
      ensures s[x] != '\n'
    {
      assert s[5..][x - 5] == s[x];
    }
    RunExact(s, 5, c => c != '\n', 8);
    assert Run(s, 5, c => c != '\n') == 8;
    assert s[12] == Ward;
    assert LastWard(s, 5, 13) == Some(12);
    assert s[5..13] == KaiWard;
  }

  /** findall of the KU pattern on "#TO# #KAI# 港区" is that one group. */
  lemma KuFindsKai()
    ensures FindAll(Ku, AfterKai) == [KaiWard]
  {
    var s, f := AfterKai, Attempt(Ku);
    KuTakesKai();
    assert f(s, 0) == Some(Match(|s|, KaiWard));
    assert ScanWith(f, s, |s|) == [];
  }

  /** Replacing the group leaves the TO marker and the padded KU marker. */
  lemma KuReplacesKai()
    ensures ReplaceEach(AfterKai, [KaiWard], Substitute(Ku)) == Marker(To) + " " + Substitute(Ku)
  {
    var pre, p, sub := Marker(To) + " ", KaiWard, Substitute(Ku);
    assert AfterKai == pre + p + "";
    var s := pre + p + "";
    assert s == AfterKai && p[1] == 'K' && |p| == 8;
    forall j: nat | j < |pre|
      ensures !OccursAt(s, p, j)
    {
      assert s[j + 1] != 'K';
      assert s[j..j + |p|][1] != p[1];
    }
    ReplaceLeftmost(pre, p, "", sub);
    assert ReplaceAll("", p, sub) == "";
    assert [p][1..] == [];
    assert ReplaceEach(pre + sub, [], sub) == pre + sub;
  }

  /** The text then collapses to "#TO# #KU#". */
  lemma KuCollapsed()
    ensures Collapse(Marker(To) + " " + Substitute(Ku)) == Marker(To) + " " + Marker(Ku)
  {
    MarkerShape(To);
    MarkerShape(Ku);
    CollapseTokenPadded(Marker(To), Marker(Ku));
  }

  /** A token followed by a space and a padded token collapses to the two tokens. */
  lemma CollapseTokenPadded(t: string, m: string)
    requires IsToken(t) && IsToken(m)
    ensures Collapse(t + " " + (" " + m + " ")) == t + " " + m
  {
    var rest := " " + " " + m + " ";
    var x := t + rest;
    assert t + " " + (" " + m + " ") == x;
    SplitWord(x, |t|);
    assert x[..|t|] == t && x[|t|..] == rest;
    SplitSpace(rest);
    assert rest[1..] == " " + m + " " + "";
    SplitPadded(m, "");
    assert Split(x) == [t, m];
    CollapseNormal(x);
  }

  /** "東京都3階港区": once TO and KAI have run, the KU rule swallows the KAI
      marker into its own group, so the text left is "#TO# #KU#" and the KAI match
      recorded earlier has no marker left to return to. */
  lemma KuSwallowsKai()
    ensures Normalized(Ku, Substitute(Ku), AfterKai) == ([KaiWard], Marker(To) + " " + Marker(Ku))
  {
    KuFindsKai();
    KuReplacesKai();
    KuCollapsed();
  }

  /** The tokens of "#TO# #KU#" are the two markers: the KAI marker is not among them. */
  lemma KaiMarkerGone()
    ensures Split(Marker(To) + " " + Marker(Ku)) == [Marker(To), Marker(Ku)]
    ensures Marker(Kai) !in Split(Marker(To) + " " + Marker(Ku))
  {
    MarkerShape(To);
    MarkerShape(Ku);
    SplitTwo(Marker(To), Marker(Ku));
    MarkersDistinct(Kai, To);
    MarkersDistinct(Kai, Ku);
  }

  /** Two tokens with a space between them split back into the two. */
  lemma SplitTwo(t: string, m: string)
    requires IsToken(t) && IsToken(m)
    ensures Split(t + " " + m) == [t, m]
  {
    var x := t + " " + m;
    SplitWord(x, |t|);
    assert x[..|t|] == t && x[|t|..] == " " + m;
    SplitSpace(" " + m);
    assert (" " + m)[1..] == m;
    SplitWord(m, |m|);
    assert m[..|m|] == m && m[|m|..] == [];
  }

  /** With one TO match and a KAI match recorded, restoring the tokens of
      "#TO# #KU#" stops at the KAI marker: tokenize raises for "#KAI#". */
  lemma KaiShort(d: Entries)
    requires |d| >= 2 && d[0] == (Marker(To), d[0].1) && d[1] == (Marker(Kai), d[1].1)
    requires |d[0].1| <= 1 && d[1].1 != []
    ensures Short([Marker(To), Marker(Ku)], d) == Some(Marker(Kai))
  {
    var ts := [Marker(To), Marker(Ku)];
    MarkersDistinct(Kai, To);
    MarkersDistinct(Kai, Ku);
    assert Count(ts, Marker(To)) == 1 by {
      MarkersDistinct(To, Ku);
      assert ts[1..] == [Marker(Ku)] && ts[1..][1..] == [];
    }
    assert Count(ts, Marker(Kai)) == 0 by {
      assert ts[1..] == [Marker(Ku)] && ts[1..][1..] == [];
    }
    assert d[1..][0] == d[1];
  }

  // ---------------------------------------------------------------------------
  // Rules that find nothing

  /** TO needs 都: a text without it has no TO match. */
  lemma ToIdle(s: string)
    requires forall x :: 0 <= x < |s| ==> s[x] != Tokyo[2]
    ensures FindAll(To, s) == []
  {
    forall j | 0 <= j < |s|
      ensures MatchAt(To, s, j).None?
    {
      if j + 3 <= |s| {
        assert s[j..j + 3][2] == s[j + 2];
      }
    }
    FindAllEmpty(To, s);
  }

  /** KAI needs 階 or Ｆ. */
  lemma KaiIdle(s: string)
    requires forall x :: 0 <= x < |s| ==> !IsFloorMark(s[x])
    ensures FindAll(Kai, s) == []
  {
    forall j | 0 <= j < |s|
      ensures MatchAt(Kai, s, j).None?
    {
      KaiExact(s, j);
    }
    FindAllEmpty(Kai, s);
  }

  /** KU needs the '#' of its anchor. */
  lemma KuIdle(s: string)
    requires forall x :: 0 <= x < |s| ==> s[x] != '#'
    ensures FindAll(Ku, s) == []
  {
    forall j | 0 <= j < |s|
      ensures MatchAt(Ku, s, j).None?
    {
      if j + |WardAnchor| <= |s| {
        assert s[j..j + |WardAnchor|][0] == s[j];
      }
    }
    FindAllEmpty(Ku, s);
  }

  /** MUNE needs 棟. */
  lemma MuneIdle(s: string)
    requires forall x :: 0 <= x < |s| ==> s[x] != BuildingMark
    ensures FindAll(Mune, s) == []
  {
    forall j | 0 <= j < |s|
      ensures MatchAt(Mune, s, j).None?
    {
      MuneExact(s, j);
    }
    FindAllEmpty(Mune, s);
  }

  /** BAN needs one of 番街目. */
  lemma BanIdle(s: string)
    requires forall x :: 0 <= x < |s| ==> !IsBanCounter(s[x])
    ensures FindAll(Ban, s) == []
  {
    CountersApart();
    forall j | 0 <= j < |s|
      ensures MatchAt(Ban, s, j).None?
    {
      CounterLongest(s, j, IsBanCounter);
    }
    FindAllEmpty(Ban, s);
  }

  /** GO needs one of 号棟室館. */
  lemma GoIdle(s: string)
    requires forall x :: 0 <= x < |s| ==> !IsGoCounter(s[x])
    ensures FindAll(Go, s) == []
  {
    CountersApart();
    forall j | 0 <= j < |s|
      ensures MatchAt(Go, s, j).None?
    {
      CounterLongest(s, j, IsGoCounter);
    }
    FindAllEmpty(Go, s);
  }

  /** POSTAL needs a separator. */
  lemma PostalIdle(s: string)
    requires forall x :: 0 <= x < |s| ==> !IsPostalSeparator(s[x])
    ensures FindAll(Postal, s) == []
  {
    forall j | 0 <= j < |s|
      ensures MatchAt(Postal, s, j).None?
    {
      PostalLongest(s, j);
    }
    FindAllEmpty(Postal, s);
  }

  /** ENDGO needs a numeral at the end, or before a final newline. */
  lemma EndGoIdle(s: string)
    requires |s| > 0 && !IsEndNumeral(s[|s| - 1]) && s[|s| - 1] != '\n'
    ensures FindAll(EndGo, s) == []
  {
    forall j | 0 <= j < |s|
      ensures MatchAt(EndGo, s, j).None?
    {
      EndGoExact(s, j);
    }
    FindAllEmpty(EndGo, s);
  }

  // ---------------------------------------------------------------------------
  // One match inside a later one: "1丁目 21丁目"

  /** 1丁目 */
  const OneChome: string := "1\U{4E01}\U{76EE}"

  /** 21丁目 */
  const TwentyOneChome: string := "2" + OneChome

  /** 1丁目 21丁目: two chome, the first one a tail of the second. */
  const ChomeOverlap: string := OneChome + " " + TwentyOneChome

  /** "#CHOME# 2 #CHOME#": what the CHOME rule leaves of it. */
  const OverlapMarked: string := Marker(Chome) + " " + "2" + " " + Marker(Chome)

  lemma OverlapFirst()
    ensures MatchAt(Chome, ChomeOverlap, 0) == Some(Match(3, OneChome))
  {
    var s := ChomeOverlap;
    assert Run(s, 1, IsNumeral) == 0;
    assert Run(s, 0, IsNumeral) == 1;
    assert Run(s, 3, IsChomeCounter) == 0;
    assert Run(s, 1, IsChomeCounter) == 2;
    assert s[0..3] == OneChome;
  }

  lemma OverlapSecond()
    ensures MatchAt(Chome, ChomeOverlap, 4) == Some(Match(4, TwentyOneChome))
  {
    var s := ChomeOverlap;
    assert Run(s, 6, IsNumeral) == 0;
    assert Run(s, 4, IsNumeral) == 2;
    assert Run(s, 8, IsChomeCounter) == 0;
    assert Run(s, 6, IsChomeCounter) == 2;
    assert s[4..8] == TwentyOneChome;
  }

  /** findall of the CHOME pattern on "1丁目 21丁目" gives both chome. */
  lemma OverlapMatches()
    ensures FindAll(Chome, ChomeOverlap) == [OneChome, TwentyOneChome]
  {
    var s := ChomeOverlap;
    var f := Attempt(Chome);
    OverlapFirst();
    OverlapScanTail();
    assert f(s, 0) == MatchAt(Chome, s, 0);
  }

  /** From the space on, the scan finds only 21丁目. */
  lemma OverlapScanTail()
    ensures ScanWith(Attempt(Chome), ChomeOverlap, 3) == [TwentyOneChome]
  {
    var s := ChomeOverlap;
    var f := Attempt(Chome);
    OverlapSecond();
    assert Run(s, 3, IsNumeral) == 0;
    assert f(s, 3) == None;
    assert f(s, 4) == MatchAt(Chome, s, 4);
    assert ScanWith(f, s, 8) == [];
    assert ScanWith(f, s, 4) == [TwentyOneChome];
  }

  /** Replacing 1丁目 also rewrites the tail of 21丁目, leaving its "2" behind. */
  lemma OverlapFirstReplaced()
    ensures ReplaceAll(ChomeOverlap, OneChome, Substitute(Chome)) == Substitute(Chome) + " 2" + Substitute(Chome)
  {
    var p, sub := OneChome, Substitute(Chome);
    var t := " 2" + p + "";
    assert ChomeOverlap == p + t;
    ReplaceFront(p, t, sub);
    assert t[0..3][0] == ' ' && t[1..4][0] == '2' && p[0] == '1';
    ReplaceLeftmost(" 2", p, "", sub);
    assert ReplaceAll("", p, sub) == "";
  }

  /** 21丁目 is then gone, so its own replacement changes nothing. */
  lemma OverlapSecondReplaced()
    ensures var t := Substitute(Chome) + " 2" + Substitute(Chome);
      ReplaceAll(t, TwentyOneChome, Substitute(Chome)) == t
  {
    var t := Substitute(Chome) + " 2" + Substitute(Chome);
    assert '\U{4E01}' !in t;
    forall k: nat
      ensures !OccursAt(t, TwentyOneChome, k)
    {
      if k + 4 <= |t| {
        assert t[k..k + 4][2] == t[k + 2];
      }
    }
    ReplaceAbsent(t, TwentyOneChome, Substitute(Chome));
  }

  lemma OverlapReplaced()
    ensures ReplaceEach(ChomeOverlap, [OneChome, TwentyOneChome], Substitute(Chome)) ==
      Substitute(Chome) + " 2" + Substitute(Chome)
  {
    var sub := Substitute(Chome);
    var t := sub + " 2" + sub;
    OverlapFirstReplaced();
    OverlapSecondReplaced();
    assert [OneChome, TwentyOneChome][1..] == [TwentyOneChome] && [TwentyOneChome][1..] == [];
    assert ReplaceEach(t, [TwentyOneChome], sub) == ReplaceEach(t, [], sub);
  }

  /** A word between two padded tokens collapses to the three, one space apart. */
  lemma CollapseAround(m: string, w: string, gap: string, sub: string)
    requires IsToken(m) && IsToken(w) && gap == " " + w && sub == " " + m + " "
    ensures Split(sub + gap + sub) == [m, w, m]
    ensures Collapse(sub + gap + sub) == m + " " + w + " " + m
  {
    var u := w + sub;
    var rest := " " + u;
    var x := sub + gap + sub;
    SplitPadded(m, "");
    assert " " + m + " " + "" == sub;
    assert Split(sub) == [m];
    SplitWord(u, |w|);
    assert u[..|w|] == w && u[|w|..] == sub;
    assert Split(u) == [w, m];
    SplitSpace(rest);
    assert rest[1..] == u;
    assert x == " " + m + " " + rest;
    SplitPadded(m, rest);
    assert Split(x) == [m, w, m];
    CollapseNormal(x);
    JoinThree(m, w, m);
  }

  /** ' '.join of three words. */
  lemma JoinThree(a: string, b: string, c: string)
    ensures Join([a, b, c]) == a + " " + b + " " + c
  {
    assert [a, b, c][1..] == [b, c] && [b, c][1..] == [c];
    assert Join([b, c]) == b + " " + c;
    assert Join([a, b, c]) == a + " " + (b + " " + c);
  }

  /** normalize with the CHOME rule on "1丁目 21丁目" records both chome and leaves
      "#CHOME# 2 #CHOME#": the "2" of 21丁目 is cut off as a word of its own. */
  lemma OverlapNormalized()
    ensures Normalized(Chome, Substitute(Chome), ChomeOverlap) == ([OneChome, TwentyOneChome], OverlapMarked)
  {
    var m := Marker(Chome);
    MarkerShape(Chome);
    OverlapMatches();
    OverlapReplaced();
    assert IsToken("2");
    CollapseAround(m, "2", " 2", Substitute(Chome));
  }

  /** "1丁目 21丁目" is whitespace-normal and holds none of the characters the first
      four rules need. */
  lemma OverlapChars()
    ensures Normal(ChomeOverlap)
    ensures forall x :: 0 <= x < |ChomeOverlap| ==>
      ChomeOverlap[x] != Tokyo[2] && !IsFloorMark(ChomeOverlap[x]) &&
      ChomeOverlap[x] != '#' && ChomeOverlap[x] != BuildingMark
  {
    var s := ChomeOverlap;
    assert IsToken(OneChome) && IsToken(TwentyOneChome);
    assert Join([OneChome, TwentyOneChome]) == s;
    JoinNormal([OneChome, TwentyOneChome]);
    assert Tokyo[2] !in s && '\U{968E}' !in s && '\U{FF26}' !in s && '#' !in s && BuildingMark !in s;
    forall x | 0 <= x < |s|
      ensures s[x] != Tokyo[2] && !IsFloorMark(s[x]) && s[x] != '#' && s[x] != BuildingMark
    {
      assert s[x] in s;
    }
  }

  /** "#CHOME# 2 #CHOME#" holds none of the characters the last four rules need,
      and ends in '#'. */
  lemma MarkedChars()
    ensures forall x :: 0 <= x < |OverlapMarked| ==>
      !IsBanCounter(OverlapMarked[x]) && !IsGoCounter(OverlapMarked[x]) && !IsPostalSeparator(OverlapMarked[x])
    ensures |OverlapMarked| > 0 && OverlapMarked[|OverlapMarked| - 1] == '#'
  {
    var m := Marker(Chome);
    var s := OverlapMarked;
    MarkerChars(Chome);
    assert s == m + " " + "2" + " " + m;
    forall x | 0 <= x < |s|
      ensures s[x] == '#' || 'A' <= s[x] <= 'Z' || s[x] == ' ' || s[x] == '2'
    {
      if x < |m| {
        assert s[x] == m[x];
      } else if x >= |m| + 3 {
        assert s[x] == m[x - |m| - 3];
      }
    }
    assert s[|s| - 1] == m[|m| - 1];
  }

  /** Rules that find nothing on normal text hand the text on unchanged. */
  lemma {:induction false} KeepsText(addr: string, lo: nat, hi: nat, t: string)
    requires lo <= hi <= |Rules| && TextBefore(addr, lo) == t && Normal(t)
    requires forall e :: lo <= e < hi ==> FindAll(Rules[e], t) == []
    ensures forall e :: lo <= e <= hi ==> TextBefore(addr, e) == t
    decreases hi - lo
  {
    if lo < hi {
      RunRulesText(addr, lo + 1);
      NormalizedSpec(Rules[lo], Substitute(Rules[lo]), t);
      KeepsText(addr, lo + 1, hi, t);
    }
  }

  /** Entry e of the dictionary is what rule e found in the text it saw. */
  lemma EntryOf(addr: string, e: nat, text: string, ms: seq<string>)
    requires e < |Rules| && TextBefore(addr, e) == text && FindAll(Rules[e], text) == ms
    ensures |Recorded(addr)| == |Rules| && Recorded(addr)[e] == (Marker(Rules[e]), ms)
  {
    RunRulesEntry(addr, e);
  }

  /** When only rule k finds anything, the loop records its matches alone and
      leaves the text it returned. */
  lemma OneRule(addr: string, k: nat, ms: seq<string>, t: string)
    requires k < |Rules| && Normal(addr) && Normal(t)
    requires forall e :: 0 <= e < k ==> FindAll(Rules[e], addr) == []
    requires Normalized(Rules[k], Substitute(Rules[k]), addr) == (ms, t)
    requires forall e :: k < e < |Rules| ==> FindAll(Rules[e], t) == []
    ensures Residual(addr) == t && |Recorded(addr)| == |Rules|
    ensures forall e :: 0 <= e < |Rules| ==>
      Recorded(addr)[e] == (Marker(Rules[e]), if e == k then ms else [])
  {
    KeepsText(addr, 0, k, addr);
    RunRulesText(addr, k + 1);
    assert FindAll(Rules[k], addr) == ms;
    KeepsText(addr, k + 1, |Rules|, t);
    assert Residual(addr) == TextBefore(addr, |Rules|);
    OneRuleEntries(addr, k, ms, t);
  }

  /** OneRule's dictionary, from the texts each rule saw. */
  lemma OneRuleEntries(addr: string, k: nat, ms: seq<string>, t: string)
    requires k < |Rules|
    requires forall e :: 0 <= e <= k ==> TextBefore(addr, e) == addr
    requires forall e :: k < e <= |Rules| ==> TextBefore(addr, e) == t
    requires forall e :: 0 <= e < k ==> FindAll(Rules[e], addr) == []
    requires FindAll(Rules[k], addr) == ms
    requires forall e :: k < e < |Rules| ==> FindAll(Rules[e], t) == []
    ensures |Recorded(addr)| == |Rules|
    ensures forall e :: 0 <= e < |Rules| ==>
      Recorded(addr)[e] == (Marker(Rules[e]), if e == k then ms else [])
  {
    EntryOf(addr, k, addr, ms);
    forall e | 0 <= e < |Rules|
      ensures Recorded(addr)[e] == (Marker(Rules[e]), if e == k then ms else [])
    {
      OneRuleEntry(addr, k, ms, t, e);
    }
  }

  /** One entry of OneRule's dictionary. */
  lemma OneRuleEntry(addr: string, k: nat, ms: seq<string>, t: string, e: nat)
    requires k < |Rules| && e < |Rules|
    requires forall e :: 0 <= e <= k ==> TextBefore(addr, e) == addr
    requires forall e :: k < e <= |Rules| ==> TextBefore(addr, e) == t
    requires forall e :: 0 <= e < k ==> FindAll(Rules[e], addr) == []
    requires FindAll(Rules[k], addr) == ms
    requires forall e :: k < e < |Rules| ==> FindAll(Rules[e], t) == []
    ensures |Recorded(addr)| == |Rules|
    ensures Recorded(addr)[e] == (Marker(Rules[e]), if e == k then ms else [])
  {
    if e < k {
      EntryOf(addr, e, addr, []);
    } else if e == k {
      EntryOf(addr, e, addr, ms);
    } else {
      EntryOf(addr, e, t, []);
    }
  }

  /** Entries without values leave the tokens alone. */
  lemma {:induction false} RestoreNone(ts: seq<string>, d: Entries)
    requires forall f :: 0 <= f < |d| ==> d[f].1 == []
    ensures Restore(ts, d) == Success(ts)
  {
    if d != [] {
      RestoreNone(ts, d[1..]);
    }
  }

  /** When only entry e has values, restoring is placing them. */
  lemma {:induction false} RestoreOnly(ts: seq<string>, d: Entries, e: nat)
    requires e < |d| && forall f :: 0 <= f < |d| && f != e ==> d[f].1 == []
    ensures Restore(ts, d) == Place(ts, d[e].0, d[e].1)
  {
    if e == 0 {
      if Place(ts, d[0].0, d[0].1).Success? {
        RestoreNone(Place(ts, d[0].0, d[0].1).value, d[1..]);
      }
    } else {
      assert d[1..][e - 1] == d[e];
      RestoreOnly(ts, d[1..], e - 1);
    }
  }

  /** When only rule k finds anything, tokenize with return_str writes rule k's
      matches back over the split of the text it left, and joins the result. */
  lemma OneRuleTokenize(addr: string, k: nat, ms: seq<string>, t: string)
    requires k < |Rules| && Normal(addr) && Normal(t)
    requires forall e :: 0 <= e < k ==> FindAll(Rules[e], addr) == []
    requires Normalized(Rules[k], Substitute(Rules[k]), addr) == (ms, t)
    requires forall e :: k < e < |Rules| ==> FindAll(Rules[e], t) == []
    ensures TokenizeSpec(addr, false, true) ==
      match Place(Split(t), Marker(Rules[k]), ms)
      case Failure(x) => Failure(x)
      case Success(ts) => Success(Joined(Join(ts)))
  {
    OneRule(addr, k, ms, t);
    RestoreOnly(Split(t), Recorded(addr), k);
  }

  /** The two chome go back in order: the first marker gets 1丁目, the second 21丁目;
      the cut-off "2" stays where it is. */
  lemma OverlapPlaced()
    ensures Place([Marker(Chome), "2", Marker(Chome)], Marker(Chome), [OneChome, TwentyOneChome])
      == Success([OneChome, "2", TwentyOneChome])
  {
    var m := Marker(Chome);
    var ts := [m, "2", m];
    MarkerChars(Chome);
    assert m[0] == '#';
    assert m != OneChome && m != "2";
    IndexFirst(ts, m, 0);
    var ts1 := ts[0 := OneChome];
    assert ts1 == [OneChome, "2", m] && ts1[..2] == [OneChome, "2"];
    IndexFirst(ts1, m, 2);
    var ts2 := ts1[2 := TwentyOneChome];
    assert ts2 == [OneChome, "2", TwentyOneChome];
    assert Place(ts2, m, []) == Success(ts2);
    assert [TwentyOneChome][1..] == [];
    assert Place(ts1, m, [TwentyOneChome]) == Success(ts2);
    assert [OneChome, TwentyOneChome][1..] == [TwentyOneChome];
  }

  /** A text without 都, floor marks, '#' or the building mark gives the four
      rules before CHOME nothing to find. */
  lemma EarlyRulesIdle(s: string)
    requires forall x :: 0 <= x < |s| ==>
      s[x] != Tokyo[2] && !IsFloorMark(s[x]) && s[x] != '#' && s[x] != BuildingMark
    ensures forall e :: 0 <= e < 4 ==> FindAll(Rules[e], s) == []
  {
    ToIdle(s);
    KaiIdle(s);
    KuIdle(s);
    MuneIdle(s);
    assert Rules[0] == To && Rules[1] == Kai && Rules[2] == Ku && Rules[3] == Mune;
  }

  /** A text without counters or postal separators that ends in '#' gives the
      four rules after CHOME nothing to find. */
  lemma LateRulesIdle(s: string)
    requires forall x :: 0 <= x < |s| ==>
      !IsBanCounter(s[x]) && !IsGoCounter(s[x]) && !IsPostalSeparator(s[x])
    requires |s| > 0 && s[|s| - 1] == '#'
    ensures forall e :: 4 < e < |Rules| ==> FindAll(Rules[e], s) == []
  {
    BanIdle(s);
    GoIdle(s);
    PostalIdle(s);
    assert !IsEndNumeral('#');
    EndGoIdle(s);
    assert Rules[5] == Ban && Rules[6] == Go && Rules[7] == Postal && Rules[8] == EndGo;
  }

  /** "#CHOME# 2 #CHOME#" is whitespace-normal. */
  lemma MarkedNormal()
    ensures Normal(OverlapMarked)
  {
    var m := Marker(Chome);
    MarkerShape(Chome);
    JoinThree(m, "2", m);
    assert IsToken("2");
    JoinNormal([m, "2", m]);
  }

  /** tokenize("1丁目 21丁目", return_str=True) is "1丁目 2 21丁目": the tokens joined
      back are not the address, since the CHOME rule's second match overlaps the
      first one's text. */
  lemma OverlapTokenized()
    ensures TokenizeSpec(ChomeOverlap, false, true) == Success(Joined(OneChome + " " + "2" + " " + TwentyOneChome))
  {
    var m := Marker(Chome);
    var t := OverlapMarked;
    OverlapChars();
    EarlyRulesIdle(ChomeOverlap);
    MarkedChars();
    LateRulesIdle(t);
    MarkedNormal();
    OverlapNormalized();
    assert Rules[4] == Chome;
    OneRuleTokenize(ChomeOverlap, 4, [OneChome, TwentyOneChome], t);
    OverlapSplit();
    OverlapPlaced();
    JoinThree(OneChome, "2", TwentyOneChome);
  }

  /** "#CHOME# 2 #CHOME#" splits into its three words. */
  lemma OverlapSplit()
    ensures Split(OverlapMarked) == [Marker(Chome), "2", Marker(Chome)]
  {
    var m := Marker(Chome);
    MarkerShape(Chome);
    JoinThree(m, "2", m);
    assert IsToken("2");
    SplitJoin([m, "2", m]);
  }
}
