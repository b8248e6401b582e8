/**
  The nine patterns of Postman's rule table and re.findall over them.

  Each pattern is given as an anchored matcher: `MatchAt(r, s, i)` is what Python's
  `re` engine returns when it tries pattern r at index i of s (how many characters
  the match spans, and the text of its first group), with the engine's
  backtracking order worked out by hand. `FindAll` is re.findall: try every index from
  the left, and after a match carry on where it ended.

  Backtracking note: in every pattern a greedy run is followed by a character from a
  class disjoint from the run's class, so giving back characters of the run never
  lets the rest match; the runs below are therefore always maximal.
*/
module Regexes {
  import opened Wrappers

  /** The rules of JAPANESE_ADDRESS_REGEXES, in table order. */
  datatype Rule = To | Kai | Ku | Mune | Chome | Ban | Go | Postal | EndGo

  /** A successful match attempt: the number of characters it spans from where it
      started, and the text of its first group. */
  datatype Match = Match(len: nat, group: string)

  // ---------------------------------------------------------------------------
  // Character classes, code point by code point

  /** [０-９0-9]: ASCII and full-width digits. */
  predicate IsDigit(c: char)
  {
    '0' <= c <= '9' || '\U{FF10}' <= c <= '\U{FF19}'
  }

  /** 一⼀⼆三四五六七⼋九⼗: the kanji numerals of the classes. ⼀ ⼆ ⼋ ⼗ are the
      Kangxi radicals U+2F00, U+2F06, U+2F0B and U+2F17, so the ordinary numerals
      二 八 十 (U+4E8C, U+516B, U+5341) are not in any class. */
  predicate IsKanjiNumeral(c: char)
  {
    || c == '\U{4E00}' || c == '\U{2F00}' || c == '\U{2F06}' || c == '\U{4E09}'
    || c == '\U{56DB}' || c == '\U{4E94}' || c == '\U{516D}' || c == '\U{4E03}'
    || c == '\U{2F0B}' || c == '\U{4E5D}' || c == '\U{2F17}'
  }

  /** The number class of chome_ban_go: digits, kanji numerals and the long vowel mark ー. */
  predicate IsNumeral(c: char)
  {
    IsDigit(c) || IsKanjiNumeral(c) || c == '\U{30FC}'
  }

  /** The number class of endgo_regex: digits and kanji numerals. */
  predicate IsEndNumeral(c: char)
  {
    IsDigit(c) || IsKanjiNumeral(c)
  }

  /** The class of mune_regex: digits, full-width Ａ to Ｚ, kanji numerals. */
  predicate IsBuildingChar(c: char)
  {
    IsDigit(c) || '\U{FF21}' <= c <= '\U{FF3A}' || IsKanjiNumeral(c)
  }

  /** The first alternative of kai_regex: digits and ー. */
  predicate IsFloorDigit(c: char)
  {
    IsDigit(c) || c == '\U{30FC}'
  }

  /** [階Ｆ] */
  predicate IsFloorMark(c: char)
  {
    c == '\U{968E}' || c == '\U{FF26}'
  }

  /** [ー－‐-]: the separators of postal_regex. */
  predicate IsPostalSeparator(c: char)
  {
    c == '\U{30FC}' || c == '\U{FF0D}' || c == '\U{2010}' || c == '-'
  }

  /** [丁目] */
  predicate IsChomeCounter(c: char)
  {
    c == '\U{4E01}' || c == '\U{76EE}'
  }

  /** [番街目] */
  predicate IsBanCounter(c: char)
  {
    c == '\U{756A}' || c == '\U{8857}' || c == '\U{76EE}'
  }

  /** [号棟室館] */
  predicate IsGoCounter(c: char)
  {
    c == '\U{53F7}' || c == '\U{68DF}' || c == '\U{5BA4}' || c == '\U{9928}'
  }

  const Ward: char := '\U{533A}'        // 区
  const Tsukuda: char := '\U{4F43}'     // 佃
  const Postmark: char := '\U{3012}'    // 〒
  const GoMark: char := '\U{53F7}'      // 号
  const BuildingMark: char := '\U{68DF}' // 棟

  /** 東京都: to_regex with its one prefecture name filled in. */
  const Tokyo: string := "\U{6771}\U{4EAC}\U{90FD}"

  /** The text ku_regex starts with: the prefecture marker left by the first rule,
      stripped, followed by one space. */
  const WardAnchor: string := "#TO# "

  // ---------------------------------------------------------------------------
  // Runs

  /** The length of the greedy run of characters satisfying p that starts at i. */
  function Run(s: string, i: nat, p: char -> bool): (n: nat)
    requires i <= |s|
    ensures i + n <= |s|
    ensures n > 0 <==> i < |s| && p(s[i])
    ensures n > 0 ==> p(s[i + n - 1])
    ensures i + n == |s| || !p(s[i + n])
    decreases |s| - i
  {
    if i < |s| && p(s[i]) then 1 + Run(s, i + 1, p) else 0
  }

  /** Every character of a run satisfies the run's predicate. */
  lemma {:induction false} RunAll(s: string, i: nat, p: char -> bool, k: nat)
    requires i <= |s| && i <= k < i + Run(s, i, p)
    ensures p(s[k])
    decreases k - i
  {
    if k > i {
      RunAll(s, i + 1, p, k);
    }
  }

  /** A run that covers exactly [i, i + k): all of it satisfies p, and what follows does not. */
  lemma {:induction false} RunExact(s: string, i: nat, p: char -> bool, k: nat)
    requires i + k <= |s|
    requires forall x :: i <= x < i + k ==> p(s[x])
    requires i + k == |s| || !p(s[i + k])
    ensures Run(s, i, p) == k
    decreases k
  {
    if k > 0 {
      RunExact(s, i + 1, p, k - 1);
    }
  }

  // ---------------------------------------------------------------------------
  // The patterns, anchored at index i

  /** What every attempt that succeeds looks like: the match is non-empty and lies
      inside the text, its first group is the text it ends with, and that group never
      ends in '#', the last character of every marker. */
  predicate Fits(s: string, i: nat, res: Option<Match>)
  {
    res.Some? ==>
      && 0 < |res.value.group| <= res.value.len && i + res.value.len <= |s|
      && res.value.group == s[i + res.value.len - |res.value.group|..i + res.value.len]
      && res.value.group[|res.value.group| - 1] != '#'
  }

  /** to_regex, ((東京)都): group 1 is the whole of 東京都. */
  function ToAt(s: string, i: nat): (res: Option<Match>)
    requires i <= |s|
    ensures Fits(s, i, res)
  {
    if i + 3 <= |s| && s[i..i + 3] == Tokyo then Some(Match(3, Tokyo)) else None
  }

  /** n characters of a run at i followed by one character of `mark`. */
  function RunThenMark(s: string, i: nat, n: nat, mark: char -> bool): (res: Option<Match>)
    requires i + n <= |s|
    requires forall c :: mark(c) ==> c != '#'
    ensures Fits(s, i, res)
  {
    if n > 0 && i + n < |s| && mark(s[i + n]) then Some(Match(n + 1, s[i..i + n + 1])) else None
  }

  /** kai_regex, (([0-9０-９ー]+|[一⼀⼆三四五六七⼋九⼗]+)[階Ｆ]): the first
      alternative is tried first, the second only when it fails. */
  function KaiAt(s: string, i: nat): (res: Option<Match>)
    requires i <= |s|
    ensures Fits(s, i, res)
  {
    match RunThenMark(s, i, Run(s, i, IsFloorDigit), IsFloorMark)
    case Some(m) => Some(m)
    case None => RunThenMark(s, i, Run(s, i, IsKanjiNumeral), IsFloorMark)
  }

  /** The last index q with lo <= q < hi and s[q] == 区. */
  function LastWard(s: string, lo: nat, hi: nat): (q: Option<nat>)
    requires lo <= hi <= |s|
    ensures q.Some? ==> lo <= q.value < hi && s[q.value] == Ward
    decreases hi
  {
    if hi <= lo then None
    else if s[hi - 1] == Ward then Some(hi - 1)
    else LastWard(s, lo, hi - 1)
  }

  /** ku_regex, #TO# (.*区(佃)?): after the anchor, the greedy .* runs to the end of
      the line (. does not match a newline) and gives characters back until 区
      follows, so the group ends at the LAST 区 of the line, taking a 佃 after it. */
  function KuAt(s: string, i: nat): (res: Option<Match>)
    requires i <= |s|
    ensures Fits(s, i, res)
  {
    if i + |WardAnchor| <= |s| && s[i..i + |WardAnchor|] == WardAnchor then
      var j := i + |WardAnchor|;
      var line := Run(s, j, c => c != '\n');
      match LastWard(s, j, j + line)
      case None => None
      case Some(q) =>
        var e := if q + 1 < |s| && s[q + 1] == Tsukuda then q + 2 else q + 1;
        assert s[j..e][e - j - 1] == s[e - 1] != '#';
        Some(Match(e - i, s[j..e]))
    else None
  }

  /** LastWard finds the last 区 in [lo, hi), and nothing when there is none. */
  lemma {:induction false} LastWardSpec(s: string, lo: nat, hi: nat)
    requires lo <= hi <= |s|
    ensures LastWard(s, lo, hi).None? <==> forall p :: lo <= p < hi ==> s[p] != Ward
    ensures LastWard(s, lo, hi).Some? ==>
      forall p :: LastWard(s, lo, hi).value < p < hi ==> s[p] != Ward
    decreases hi
  {
    if lo < hi && s[hi - 1] != Ward {
      LastWardSpec(s, lo, hi - 1);
    }
  }

  /** A KU match starts with the marker "#TO# " that the TO rule leaves, and its
      group runs from there to the 区 at q, followed by 佃 when one comes next. */
  lemma KuShape(s: string, i: nat) returns (q: nat)
    requires i <= |s| && KuAt(s, i).Some?
    ensures i + |WardAnchor| <= q < |s| && s[q] == Ward
    ensures s[i..i + |WardAnchor|] == WardAnchor
    ensures KuAt(s, i).value.group == s[i + |WardAnchor|..i + KuAt(s, i).value.len]
    ensures i + KuAt(s, i).value.len == if q + 1 < |s| && s[q + 1] == Tsukuda then q + 2 else q + 1
    ensures q == LastWard(s, i + |WardAnchor|, i + |WardAnchor| + Run(s, i + |WardAnchor|, c => c != '\n')).value
  {
    q := LastWard(s, i + |WardAnchor|, i + |WardAnchor| + Run(s, i + |WardAnchor|, c => c != '\n')).value;
  }

  /** The 区 that ends a KU group is the last one on its line: the group has no
      newline, and every later 区 comes after a newline. */
  lemma KuLastWard(s: string, i: nat) returns (q: nat)
    requires i <= |s| && KuAt(s, i).Some?
    ensures i + |WardAnchor| <= q < |s| && s[q] == Ward
    ensures forall p :: i + |WardAnchor| <= p <= q ==> s[p] != '\n'
    ensures forall p :: q < p < |s| && s[p] == Ward ==> exists n :: q < n < p && s[n] == '\n'
  {
    q := KuShape(s, i);
    var j := i + |WardAnchor|;
    var line := Run(s, j, c => c != '\n');
    LastWardSpec(s, j, j + line);
    forall p | j <= p <= q
      ensures s[p] != '\n'
    {
      RunAll(s, j, c => c != '\n', p);
    }
    forall p | q < p < |s| && s[p] == Ward
      ensures exists n :: q < n < p && s[n] == '\n'
    {
      assert s[j + line] == '\n';
    }
  }

  /** The converse of KuShape: after the anchor "#TO# ", a 区 with no newline
      before it on its line is always matched, and the group reaches at least that 区. */
  lemma KuComplete(s: string, i: nat, p: nat)
    requires i + |WardAnchor| <= |s| && s[i..i + |WardAnchor|] == WardAnchor
    requires i + |WardAnchor| <= p < |s| && s[p] == Ward
    requires forall x :: i + |WardAnchor| <= x < p ==> s[x] != '\n'
    ensures KuAt(s, i).Some? && p < i + KuAt(s, i).value.len
  {
    var j := i + |WardAnchor|;
    var line := Run(s, j, c => c != '\n');
    assert p < j + line;
    LastWardSpec(s, j, j + line);
  }

  /** mune_regex, ([0-9０-９Ａ-Ｚ一⼀⼆三四五六七⼋九⼗]+([号]?[棟])). */
  function MuneAt(s: string, i: nat): (res: Option<Match>)
    requires i <= |s|
    ensures Fits(s, i, res)
  {
    var n := Run(s, i, IsBuildingChar);
    if n == 0 then None
    else if i + n + 1 < |s| && s[i + n] == GoMark && s[i + n + 1] == BuildingMark then
      Some(Match(n + 2, s[i..i + n + 2]))
    else if i + n < |s| && s[i + n] == BuildingMark then
      Some(Match(n + 1, s[i..i + n + 1]))
    else None
  }

  /** chome_ban_go, ([0-9０-９一⼀⼆三四五六七⼋九⼗ー]+([counters]+)), for one
      counter class. */
  function CounterAt(s: string, i: nat, counter: char -> bool): (res: Option<Match>)
    requires i <= |s|
    requires forall c :: counter(c) ==> c != '#'
    ensures Fits(s, i, res)
  {
    var n := Run(s, i, IsNumeral);
    if n == 0 then None
    else
      var m := Run(s, i + n, counter);
      if m == 0 then None else Some(Match(n + m, s[i..i + n + m]))
  }

  /** One repetition of (〒?[０-９0-9]+([ー－‐-])) starting at j: where it ends. */
  function PostalStep(s: string, j: nat): (e: Option<nat>)
    requires j <= |s|
    ensures e.Some? ==> j < e.value <= |s|
  {
    var k := if j < |s| && s[j] == Postmark then j + 1 else j;
    var n := Run(s, k, IsDigit);
    if n > 0 && k + n < |s| && IsPostalSeparator(s[k + n]) then Some(k + n + 1) else None
  }

  /** The closing ([０-９0-9]+) at j: where it ends. */
  function PostalTail(s: string, j: nat): (e: Option<nat>)
    requires j <= |s|
    ensures e.Some? ==> j < e.value <= |s| && IsDigit(s[e.value - 1])
  {
    var n := Run(s, j, IsDigit);
    if n > 0 then Some(j + n) else None
  }

  /** After at least one repetition, ending at j: the greedy {1,} tries one more
      repetition first and falls back to closing the match at j. */
  function PostalFrom(s: string, j: nat): (e: Option<nat>)
    requires j <= |s|
    ensures e.Some? ==> j < e.value <= |s| && IsDigit(s[e.value - 1])
    decreases |s| - j
  {
    match PostalStep(s, j)
    case Some(k) =>
      (match PostalFrom(s, k)
       case Some(e) => Some(e)
       case None => PostalTail(s, j))
    case None => PostalTail(s, j)
  }

  /** postal_regex, ((〒?[０-９0-9]+([ー－‐-])){1,}([０-９0-9]+)). */
  function PostalAt(s: string, i: nat): (res: Option<Match>)
    requires i <= |s|
    ensures Fits(s, i, res)
  {
    match PostalStep(s, i)
    case None => None
    case Some(k) =>
      match PostalFrom(s, k)
      case None => None
      case Some(e) => Some(Match(e - i, s[i..e]))
  }

  /** `$` without MULTILINE: the end of the text, or just before a newline that ends it. */
  predicate AtEnd(s: string, j: nat)
  {
    j == |s| || (j + 1 == |s| && s[j] == '\n')
  }

  /** endgo_regex, (([0-9０-９一⼀⼆三四五六七⼋九⼗]+$)). */
  function EndGoAt(s: string, i: nat): (res: Option<Match>)
    requires i <= |s|
    ensures Fits(s, i, res)
  {
    var n := Run(s, i, IsEndNumeral);
    if n > 0 && AtEnd(s, i + n) then Some(Match(n, s[i..i + n])) else None
  }

  /** The attempt of rule r at index i. */
  function MatchAt(r: Rule, s: string, i: nat): (res: Option<Match>)
    requires i <= |s|
    ensures Fits(s, i, res)
  {
    match r
    case To => ToAt(s, i)
    case Kai => KaiAt(s, i)
    case Ku => KuAt(s, i)
    case Mune => MuneAt(s, i)
    case Chome => CounterAt(s, i, IsChomeCounter)
    case Ban => CounterAt(s, i, IsBanCounter)
    case Go => CounterAt(s, i, IsGoCounter)
    case Postal => PostalAt(s, i)
    case EndGo => EndGoAt(s, i)
  }

  // ---------------------------------------------------------------------------
  // What each pattern matches
  //
  // Each attempt is compared with a description of the text its pattern matches,
  // written without greedy runs: the attempt succeeds exactly when such a text
  // starts at i, and it spans the longest one (for KAI, MUNE and ENDGO there is at
  // most one). With the classes disjoint as they are, that longest text is the one
  // the engine's greedy backtracking search arrives at.

  /** s[i..e] has the shape p+ q+, the q part starting at k. */
  predicate TwoRuns(s: string, i: nat, k: nat, e: nat, p: char -> bool, q: char -> bool)
  {
    && i < k < e <= |s|
    && (forall x :: i <= x < k ==> p(s[x]))
    && (forall x :: k <= x < e ==> q(s[x]))
  }

  /** Any p+ q+ text at i splits where the greedy run of p ends, and ends no later
      than the greedy run of q after it. */
  lemma TwoRunsGreedy(s: string, i: nat, k: nat, e: nat, p: char -> bool, q: char -> bool)
    requires TwoRuns(s, i, k, e, p, q)
    requires forall c :: q(c) ==> !p(c)
    ensures k == i + Run(s, i, p)
    ensures e <= k + Run(s, k, q)
  {
    var n := Run(s, i, p);
    if i + n > k {
      RunAll(s, i, p, k);
      assert false;
    }
    if i + n < k {
      assert false;
    }
    var m := Run(s, k, q);
    if k + m < e {
      assert false;
    }
  }

  /** The counter classes share no character with the number class. */
  lemma CountersApart()
    ensures forall c :: IsChomeCounter(c) ==> c != '#' && !IsNumeral(c)
    ensures forall c :: IsBanCounter(c) ==> c != '#' && !IsNumeral(c)
    ensures forall c :: IsGoCounter(c) ==> c != '#' && !IsNumeral(c)
  {
  }

  /** chome_ban_go at i matches exactly the longest text of the shape number+
      counter+ that starts there, and nothing when no such text starts there. */
  lemma CounterLongest(s: string, i: nat, counter: char -> bool)
    requires i <= |s| && forall c :: counter(c) ==> c != '#' && !IsNumeral(c)
    ensures var res := CounterAt(s, i, counter);
      res.Some? ==>
        && res.value.group == s[i..i + res.value.len]
        && TwoRuns(s, i, i + Run(s, i, IsNumeral), i + res.value.len, IsNumeral, counter)
    ensures forall k: nat, e: nat :: TwoRuns(s, i, k, e, IsNumeral, counter) ==>
      CounterAt(s, i, counter).Some? && e <= i + CounterAt(s, i, counter).value.len
  {
    CounterShape(s, i, counter);
    forall k: nat, e: nat | TwoRuns(s, i, k, e, IsNumeral, counter)
      ensures CounterAt(s, i, counter).Some? && e <= i + CounterAt(s, i, counter).value.len
    {
      CounterCovers(s, i, k, e, counter);
    }
  }

  /** A CHOME, BAN or GO match is the numerals followed by the counters. */
  lemma CounterShape(s: string, i: nat, counter: char -> bool)
    requires i <= |s| && forall c :: counter(c) ==> c != '#'
    ensures var res := CounterAt(s, i, counter);
      res.Some? ==>
        && |res.value.group| == res.value.len
        && TwoRuns(s, i, i + Run(s, i, IsNumeral), i + res.value.len, IsNumeral, counter)
  {
    var n := Run(s, i, IsNumeral);
    if n > 0 && Run(s, i + n, counter) > 0 {
      RunsTwoRuns(s, i, IsNumeral, counter);
    }
  }

  /** A run of p and the run of q right after it, both non-empty, form p+ q+. */
  lemma RunsTwoRuns(s: string, i: nat, p: char -> bool, q: char -> bool)
    requires i <= |s| && Run(s, i, p) > 0 && Run(s, i + Run(s, i, p), q) > 0
    ensures TwoRuns(s, i, i + Run(s, i, p), i + Run(s, i, p) + Run(s, i + Run(s, i, p), q), p, q)
  {
    var n := Run(s, i, p);
    var m := Run(s, i + n, q);
    forall x | i <= x < i + n ensures p(s[x]) {
      RunAll(s, i, p, x);
    }
    forall x | i + n <= x < i + n + m ensures q(s[x]) {
      RunAll(s, i + n, q, x);
    }
  }

  /** Every number+ counter+ text at i lies within the match at i. */
  lemma CounterCovers(s: string, i: nat, k: nat, e: nat, counter: char -> bool)
    requires TwoRuns(s, i, k, e, IsNumeral, counter)
    requires forall c :: counter(c) ==> c != '#' && !IsNumeral(c)
    ensures CounterAt(s, i, counter).Some? && e <= i + CounterAt(s, i, counter).value.len
  {
    TwoRunsGreedy(s, i, k, e, IsNumeral, counter);
    var n := Run(s, i, IsNumeral);
    assert n > 0;
    var m := Run(s, i + n, counter);
    assert counter(s[i + n]);
    assert m > 0;
  }

  /** s[i..e] is a run of p followed by one character of mark: the shape p+ mark. */
  predicate RunThen(s: string, i: nat, e: nat, p: char -> bool, mark: char -> bool)
  {
    && i + 1 < e <= |s|
    && (forall x :: i <= x < e - 1 ==> p(s[x]))
    && mark(s[e - 1])
  }

  /** A p+ mark text at i is the greedy run followed by the mark, when no mark
      character satisfies p. */
  lemma RunThenGreedy(s: string, i: nat, e: nat, p: char -> bool, mark: char -> bool)
    requires RunThen(s, i, e, p, mark) && forall c :: mark(c) ==> !p(c)
    ensures Run(s, i, p) == e - 1 - i
  {
    RunExact(s, i, p, e - 1 - i);
  }

  /** A run followed by its mark, as RunThenMark finds it, has the shape p+ mark. */
  lemma RunThenShape(s: string, i: nat, p: char -> bool, mark: char -> bool)
    requires i <= |s| && forall c :: mark(c) ==> c != '#'
    requires RunThenMark(s, i, Run(s, i, p), mark).Some?
    ensures var m := RunThenMark(s, i, Run(s, i, p), mark).value;
      |m.group| == m.len && RunThen(s, i, i + m.len, p, mark)
  {
    var n := Run(s, i, p);
    forall x | i <= x < i + n ensures p(s[x]) {
      RunAll(s, i, p, x);
    }
  }

  /** kai_regex's text: digits or kanji numerals, then 階 or Ｆ. */
  predicate Floor(s: string, i: nat, e: nat)
  {
    RunThen(s, i, e, IsFloorDigit, IsFloorMark) || RunThen(s, i, e, IsKanjiNumeral, IsFloorMark)
  }

  /** kai_regex at i matches exactly the floor text that starts there, of which
      there is at most one, and nothing when there is none. */
  lemma KaiExact(s: string, i: nat)
    requires i <= |s|
    ensures KaiAt(s, i).Some? ==> |KaiAt(s, i).value.group| == KaiAt(s, i).value.len && Floor(s, i, i + KaiAt(s, i).value.len)
    ensures forall e: nat :: Floor(s, i, e) ==> KaiAt(s, i).Some? && i + KaiAt(s, i).value.len == e
  {
    KaiShape(s, i);
    forall e: nat | Floor(s, i, e)
      ensures KaiAt(s, i).Some? && i + KaiAt(s, i).value.len == e
    {
      KaiCovers(s, i, e);
    }
  }

  /** A KAI match is a floor text. */
  lemma KaiShape(s: string, i: nat)
    requires i <= |s|
    ensures KaiAt(s, i).Some? ==> |KaiAt(s, i).value.group| == KaiAt(s, i).value.len && Floor(s, i, i + KaiAt(s, i).value.len)
  {
    if RunThenMark(s, i, Run(s, i, IsFloorDigit), IsFloorMark).Some? {
      KaiFirstShape(s, i);
    } else {
      KaiSecondShape(s, i);
    }
  }

  /** The first alternative of kai_regex, when it matches, is the match. */
  lemma KaiFirstShape(s: string, i: nat)
    requires i <= |s| && RunThenMark(s, i, Run(s, i, IsFloorDigit), IsFloorMark).Some?
    ensures KaiAt(s, i) == RunThenMark(s, i, Run(s, i, IsFloorDigit), IsFloorMark)
    ensures |KaiAt(s, i).value.group| == KaiAt(s, i).value.len && Floor(s, i, i + KaiAt(s, i).value.len)
  {
    RunThenShape(s, i, IsFloorDigit, IsFloorMark);
  }

  /** When the first alternative fails, the second one decides the match. */
  lemma KaiSecondShape(s: string, i: nat)
    requires i <= |s| && RunThenMark(s, i, Run(s, i, IsFloorDigit), IsFloorMark).None?
    ensures KaiAt(s, i) == RunThenMark(s, i, Run(s, i, IsKanjiNumeral), IsFloorMark)
    ensures KaiAt(s, i).Some? ==> |KaiAt(s, i).value.group| == KaiAt(s, i).value.len && Floor(s, i, i + KaiAt(s, i).value.len)
  {
    if KaiAt(s, i).Some? {
      RunThenShape(s, i, IsKanjiNumeral, IsFloorMark);
    }
  }

  /** Every floor text at i is the KAI match at i. */
  lemma KaiCovers(s: string, i: nat, e: nat)
    requires Floor(s, i, e)
    ensures KaiAt(s, i).Some? && i + KaiAt(s, i).value.len == e
  {
    if RunThen(s, i, e, IsFloorDigit, IsFloorMark) {
      KaiDigits(s, i, e);
    } else {
      KaiKanji(s, i, e);
    }
  }

  /** A floor text of digits is found by the first alternative. */
  lemma KaiDigits(s: string, i: nat, e: nat)
    requires RunThen(s, i, e, IsFloorDigit, IsFloorMark)
    ensures KaiAt(s, i).Some? && i + KaiAt(s, i).value.len == e
  {
    RunThenGreedy(s, i, e, IsFloorDigit, IsFloorMark);
    RunThenLength(s, i, IsFloorDigit, IsFloorMark);
  }

  /** A floor text of kanji numerals makes the first alternative fail and the second succeed. */
  lemma KaiKanji(s: string, i: nat, e: nat)
    requires RunThen(s, i, e, IsKanjiNumeral, IsFloorMark)
    ensures KaiAt(s, i).Some? && i + KaiAt(s, i).value.len == e
  {
    RunThenGreedy(s, i, e, IsKanjiNumeral, IsFloorMark);
    RunThenLength(s, i, IsKanjiNumeral, IsFloorMark);
    assert !IsFloorDigit(s[i]);
    assert RunThenMark(s, i, Run(s, i, IsFloorDigit), IsFloorMark).None?;
  }

  /** A run followed by a mark character gives a match spanning both. */
  lemma RunThenLength(s: string, i: nat, p: char -> bool, mark: char -> bool)
    requires i <= |s| && forall c :: mark(c) ==> c != '#'
    requires 0 < Run(s, i, p) && i + Run(s, i, p) < |s| && mark(s[i + Run(s, i, p)])
    ensures RunThenMark(s, i, Run(s, i, p), mark).Some?
    ensures RunThenMark(s, i, Run(s, i, p), mark).value.len == Run(s, i, p) + 1
  {
  }

  /** mune_regex's text: building characters from i to k, then 棟 or 号棟, ending at e. */
  predicate Building(s: string, i: nat, k: nat, e: nat)
  {
    && i < k < e <= |s|
    && (forall x :: i <= x < k ==> IsBuildingChar(s[x]))
    && ((e == k + 1 && s[k] == BuildingMark) || (e == k + 2 && s[k] == GoMark && s[k + 1] == BuildingMark))
  }

  /** mune_regex at i matches exactly the building text that starts there, of which
      there is at most one, and nothing when there is none. */
  lemma MuneExact(s: string, i: nat)
    requires i <= |s|
    ensures var res := MuneAt(s, i);
      res.Some? ==> |res.value.group| == res.value.len && Building(s, i, i + Run(s, i, IsBuildingChar), i + res.value.len)
    ensures forall k: nat, e: nat :: Building(s, i, k, e) ==> MuneAt(s, i).Some? && i + MuneAt(s, i).value.len == e
  {
    MuneShape(s, i);
    forall k: nat, e: nat | Building(s, i, k, e)
      ensures MuneAt(s, i).Some? && i + MuneAt(s, i).value.len == e
    {
      RunExact(s, i, IsBuildingChar, k - i);
    }
  }

  /** A MUNE match is the building characters followed by 棟 or 号棟. */
  lemma MuneShape(s: string, i: nat)
    requires i <= |s|
    ensures var res := MuneAt(s, i);
      res.Some? ==> |res.value.group| == res.value.len && Building(s, i, i + Run(s, i, IsBuildingChar), i + res.value.len)
  {
    var n := Run(s, i, IsBuildingChar);
    forall x | i <= x < i + n ensures IsBuildingChar(s[x]) {
      RunAll(s, i, IsBuildingChar, x);
    }
  }

  /** endgo_regex's text: a non-empty run of numerals from i to e. */
  predicate Numerals(s: string, i: nat, e: nat)
  {
    i < e <= |s| && forall x :: i <= x < e ==> IsEndNumeral(s[x])
  }

  /** endgo_regex at i matches exactly the numerals from i to where `$` holds, and
      nothing when they do not reach it. */
  lemma EndGoExact(s: string, i: nat)
    requires i <= |s|
    ensures var res := EndGoAt(s, i);
      res.Some? ==> |res.value.group| == res.value.len && Numerals(s, i, i + res.value.len) && AtEnd(s, i + res.value.len)
    ensures forall e: nat :: Numerals(s, i, e) && AtEnd(s, e) ==> EndGoAt(s, i).Some? && i + EndGoAt(s, i).value.len == e
  {
    var n := Run(s, i, IsEndNumeral);
    forall x | i <= x < i + n ensures IsEndNumeral(s[x]) {
      RunAll(s, i, IsEndNumeral, x);
    }
    forall e: nat | Numerals(s, i, e) && AtEnd(s, e)
      ensures EndGoAt(s, i).Some? && i + EndGoAt(s, i).value.len == e
    {
      RunExact(s, i, IsEndNumeral, e - i);
    }
  }

  /** s[a..m] is [０-９0-9]+ followed by one of [ー－‐-]. */
  predicate DigitsThenSeparator(s: string, a: nat, m: nat)
  {
    RunThen(s, a, m, IsDigit, IsPostalSeparator)
  }

  /** s[j..m] is one repetition (〒?[０-９0-9]+([ー－‐-])). */
  predicate Block(s: string, j: nat, m: nat)
  {
    DigitsThenSeparator(s, j, m) || (j < |s| && s[j] == Postmark && DigitsThenSeparator(s, j + 1, m))
  }

  /** s[a..e] is [０-９0-9]+. */
  predicate Digits(s: string, a: nat, e: nat)
  {
    a < e <= |s| && forall x :: a <= x < e ==> IsDigit(s[x])
  }

  /** s[j..m] is zero or more repetitions. */
  ghost predicate Blocks(s: string, j: nat, m: nat)
    decreases m - j
  {
    j == m || exists k: nat :: j < k <= m && Block(s, j, k) && Blocks(s, k, m)
  }

  /** s[i..e] is what postal_regex matches: one or more repetitions, then digits. */
  ghost predicate PostalText(s: string, i: nat, e: nat)
  {
    exists k: nat, m: nat :: Block(s, i, k) && Blocks(s, k, m) && Digits(s, m, e)
  }

  /** A repetition is what PostalStep finds, and PostalStep finds only repetitions. */
  lemma StepBlock(s: string, j: nat)
    requires j <= |s|
    ensures PostalStep(s, j).Some? ==> Block(s, j, PostalStep(s, j).value)
    ensures forall m: nat :: Block(s, j, m) ==> PostalStep(s, j) == Some(m)
  {
    StepShape(s, j);
    forall m: nat | Block(s, j, m) ensures PostalStep(s, j) == Some(m) {
      StepCovers(s, j, m);
    }
  }

  /** What PostalStep finds is one repetition. */
  lemma StepShape(s: string, j: nat)
    requires j <= |s|
    ensures PostalStep(s, j).Some? ==> Block(s, j, PostalStep(s, j).value)
  {
    var a := if j < |s| && s[j] == Postmark then j + 1 else j;
    var n := Run(s, a, IsDigit);
    forall x | a <= x < a + n ensures IsDigit(s[x]) {
      RunAll(s, a, IsDigit, x);
    }
  }

  /** A repetition at j ends where PostalStep says. */
  lemma StepCovers(s: string, j: nat, m: nat)
    requires Block(s, j, m)
    ensures PostalStep(s, j) == Some(m)
  {
    if DigitsThenSeparator(s, j, m) {
      StepCoversPlain(s, j, m);
    } else {
      StepCoversMarked(s, j, m);
    }
  }

  /** A repetition without 〒. */
  lemma StepCoversPlain(s: string, j: nat, m: nat)
    requires DigitsThenSeparator(s, j, m)
    ensures PostalStep(s, j) == Some(m)
  {
    assert !IsDigit(Postmark) && IsDigit(s[j]);
    RunThenGreedy(s, j, m, IsDigit, IsPostalSeparator);
  }

  /** A repetition that starts with 〒. */
  lemma StepCoversMarked(s: string, j: nat, m: nat)
    requires j < |s| && s[j] == Postmark && DigitsThenSeparator(s, j + 1, m)
    ensures PostalStep(s, j) == Some(m)
  {
    RunThenGreedy(s, j + 1, m, IsDigit, IsPostalSeparator);
  }

  /** The closing digits: PostalTail takes the longest run of them. */
  lemma TailDigits(s: string, j: nat)
    requires j <= |s|
    ensures PostalTail(s, j).Some? ==> Digits(s, j, PostalTail(s, j).value)
    ensures forall e: nat :: Digits(s, j, e) ==> PostalTail(s, j).Some? && e <= PostalTail(s, j).value
  {
    var n := Run(s, j, IsDigit);
    forall x | j <= x < j + n ensures IsDigit(s[x]) {
      RunAll(s, j, IsDigit, x);
    }
    forall e: nat | Digits(s, j, e) ensures PostalTail(s, j).Some? && e <= PostalTail(s, j).value {
      if j + n < e {
        assert false;
      }
    }
  }

  /** Digits starting where a repetition starts end before that repetition does. */
  lemma TailBeforeStep(s: string, j: nat, e: nat)
    requires Digits(s, j, e) && PostalStep(s, j).Some?
    ensures e < PostalStep(s, j).value
  {
    StepBlock(s, j);
    var m := PostalStep(s, j).value;
    if m <= e {
      assert false;
    }
  }

  /** What PostalFrom finds is digits after zero or more repetitions. */
  lemma {:induction false} FromSound(s: string, j: nat) returns (m: nat)
    requires j <= |s| && PostalFrom(s, j).Some?
    ensures Blocks(s, j, m) && Digits(s, m, PostalFrom(s, j).value)
    decreases |s| - j
  {
    TailDigits(s, j);
    match PostalStep(s, j)
    case Some(k) =>
      if PostalFrom(s, k).Some? {
        StepBlock(s, j);
        m := FromSound(s, k);
        assert Blocks(s, j, m);
      } else {
        m := j;
      }
    case None =>
      m := j;
  }

  /** PostalFrom finds the longest digits after any number of repetitions. */
  lemma {:induction false} FromLongest(s: string, j: nat, m: nat, e: nat)
    requires Blocks(s, j, m) && Digits(s, m, e)
    ensures PostalFrom(s, j).Some? && e <= PostalFrom(s, j).value
    decreases m - j
  {
    TailDigits(s, j);
    if j == m {
      if PostalStep(s, j).Some? {
        TailBeforeStep(s, j, e);
      }
    } else {
      var k: nat :| j < k <= m && Block(s, j, k) && Blocks(s, k, m);
      StepBlock(s, j);
      FromLongest(s, k, m, e);
    }
  }

  /** postal_regex at i matches exactly the longest postal text that starts there,
      and nothing when none starts there. */
  lemma PostalLongest(s: string, i: nat)
    requires i <= |s|
    ensures var res := PostalAt(s, i);
      res.Some? ==> |res.value.group| == res.value.len && PostalText(s, i, i + res.value.len)
    ensures forall e: nat :: PostalText(s, i, e) ==> PostalAt(s, i).Some? && e <= i + PostalAt(s, i).value.len
  {
    StepBlock(s, i);
    if PostalAt(s, i).Some? {
      var k := PostalStep(s, i).value;
      var m := FromSound(s, k);
      assert PostalText(s, i, PostalFrom(s, k).value);
    }
    forall e: nat | PostalText(s, i, e)
      ensures PostalAt(s, i).Some? && e <= i + PostalAt(s, i).value.len
    {
      var k: nat, m: nat :| Block(s, i, k) && Blocks(s, k, m) && Digits(s, m, e);
      FromLongest(s, k, m, e);
    }
  }

  // ---------------------------------------------------------------------------
  // re.findall

  /** An anchored matcher: what a pattern's attempt at an index gives. */
  type Matcher = (string, nat) -> Option<Match>

  /** Every attempt inside the text that succeeds consumes at least one character
      and yields a group that is not a marker. */
  ghost predicate Consumes(f: Matcher)
  {
    forall t: string, j: nat :: j <= |t| ==> Steps(t, j, f(t, j))
  }

  /** The part of `Fits` the scan relies on. */
  predicate Steps(t: string, j: nat, res: Option<Match>)
  {
    res.Some? ==>
      && 0 < res.value.len && j + res.value.len <= |t|
      && |res.value.group| > 0 && res.value.group[|res.value.group| - 1] != '#'
  }

  /** re.findall(pattern, s[i..]) keeping the first group of each match: attempts
      start at every index from the left, and after a match at the index where it
      ended. */
  function ScanWith(f: Matcher, s: string, i: nat): seq<string>
    requires i <= |s| && Consumes(f)
    decreases |s| - i
  {
    if i == |s| then []
    else
      match f(s, i)
      case Some(m) => [m.group] + ScanWith(f, s, i + m.len)
      case None => ScanWith(f, s, i + 1)
  }

  /** The matcher of rule r. */
  function Attempt(r: Rule): (f: Matcher)
    ensures Consumes(f)
  {
    (t: string, j: nat) => if j <= |t| then MatchAt(r, t, j) else None
  }

  /** re.findall(pattern_of(r), s), first groups only. */
  function FindAll(r: Rule, s: string): seq<string>
  {
    ScanWith(Attempt(r), s, 0)
  }

  /** No attempt of f succeeds at any index in [i, k). */
  predicate NoMatchBetween(f: Matcher, s: string, i: nat, k: nat)
  {
    forall j :: i <= j < k ==> f(s, j).None?
  }

  /** A failed attempt moves the scan on by one character. */
  lemma ScanSkip(f: Matcher, s: string, i: nat)
    requires Consumes(f) && i < |s| && f(s, i).None?
    ensures ScanWith(f, s, i) == ScanWith(f, s, i + 1)
  {
  }

  /** findall's first result comes from the leftmost index where the pattern
      matches, and the scan resumes where that match ends. */
  lemma {:induction false} ScanLeftmost(f: Matcher, s: string, i: nat, k: nat, m: Match)
    requires Consumes(f)
    requires i <= k < |s| && NoMatchBetween(f, s, i, k) && f(s, k) == Some(m)
    ensures k + m.len <= |s|
    ensures ScanWith(f, s, i) == [m.group] + ScanWith(f, s, k + m.len)
    decreases k - i
  {
    if i < k {
      ScanSkip(f, s, i);
      ScanLeftmost(f, s, i + 1, k, m);
    }
  }

  /** findall finds nothing exactly when no index matches. */
  lemma {:induction false} ScanEmpty(f: Matcher, s: string, i: nat)
    requires Consumes(f) && i <= |s|
    ensures ScanWith(f, s, i) == [] <==> NoMatchBetween(f, s, i, |s|)
    decreases |s| - i
  {
    if i < |s| {
      if f(s, i).None? {
        ScanEmpty(f, s, i + 1);
      } else {
        assert ScanWith(f, s, i) != [];
      }
    }
  }

  /** Every group findall returns is non-empty and does not end in '#', so none of
      them is a marker. */
  lemma {:induction false} ScanGroups(f: Matcher, s: string, i: nat)
    requires Consumes(f) && i <= |s|
    ensures forall g :: g in ScanWith(f, s, i) ==> |g| > 0 && g[|g| - 1] != '#'
    decreases |s| - i
  {
    if i < |s| {
      match f(s, i)
      case Some(m) =>
        assert Steps(s, i, f(s, i));
        ScanGroups(f, s, i + m.len);
      case None =>
        ScanGroups(f, s, i + 1);
    }
  }
}
