/**
  The Python string built-ins the tokenizer relies on: the whitespace test behind
  str.split() and str.strip(), ' '.join, and str.replace, with the facts about
  them that the tokenizer's contracts need.
*/
module Text {

  /** Exactly the characters Python's str.isspace() accepts; str.split() and
      str.strip() cut on these and on nothing else. */
  predicate IsSpace(c: char)
  {
    || c == '\t' || c == '\n' || c == '\U{B}' || c == '\U{C}' || c == '\r'
    || ('\U{1C}' <= c <= '\U{1F}') || c == ' ' || c == '\U{85}' || c == '\U{A0}'
    || c == '\U{1680}' || ('\U{2000}' <= c <= '\U{200A}') || c == '\U{2028}'
    || c == '\U{2029}' || c == '\U{202F}' || c == '\U{205F}' || c == '\U{3000}'
  }

  predicate NoSpace(s: string)
  {
    forall i :: 0 <= i < |s| ==> !IsSpace(s[i])
  }

  /** A piece as str.split() yields it: non-empty and free of whitespace. */
  predicate IsToken(t: string)
  {
    |t| > 0 && NoSpace(t)
  }

  predicate AllTokens(ts: seq<string>)
  {
    forall j :: 0 <= j < |ts| ==> IsToken(ts[j])
  }

  /** Whitespace-normal text: every whitespace character is a single ' ' with a
      non-whitespace character on both sides, so there is no leading or trailing
      whitespace and no run of two. */
  predicate Normal(s: string)
  {
    forall i :: 0 <= i < |s| && IsSpace(s[i]) ==> s[i] == ' ' && 0 < i < |s| - 1 && !IsSpace(s[i + 1])
  }

  /** The number of whitespace characters the text starts with. */
  function LeadingSpaces(s: string): (n: nat)
    ensures n <= |s| && (n == |s| || !IsSpace(s[n]))
    ensures forall i :: 0 <= i < n ==> IsSpace(s[i])
  {
    if s != [] && IsSpace(s[0]) then 1 + LeadingSpaces(s[1..]) else 0
  }

  /** The number of whitespace characters the text ends with. */
  function TrailingSpaces(s: string): (n: nat)
    ensures n <= |s| && (n == |s| || !IsSpace(s[|s| - 1 - n]))
    ensures forall i :: |s| - n <= i < |s| ==> IsSpace(s[i])
  {
    if s != [] && IsSpace(s[|s| - 1]) then 1 + TrailingSpaces(s[..|s| - 1]) else 0
  }

  /** The length of the longest prefix free of whitespace. */
  function WordLength(s: string): (n: nat)
    ensures n <= |s|
  {
    if s == [] || IsSpace(s[0]) then 0 else 1 + WordLength(s[1..])
  }

  /** str.split() without a separator: the maximal runs of non-whitespace, in order. */
  function Split(s: string): seq<string>
    decreases |s|
  {
    if s == [] then []
    else if IsSpace(s[0]) then Split(s[1..])
    else
      var n := WordLength(s);
      [s[..n]] + Split(s[n..])
  }

  /** ' '.join(ts). */
  function Join(ts: seq<string>): string
  {
    if ts == [] then "" else if |ts| == 1 then ts[0] else ts[0] + " " + Join(ts[1..])
  }

  /** str.strip() without arguments. */
  function Strip(s: string): string
  {
    var t := s[LeadingSpaces(s)..];
    t[..|t| - TrailingSpaces(t)]
  }

  /** ' '.join(text.split()).strip(): the whitespace normalisation ending every rule pass. */
  function Collapse(s: string): string
  {
    Strip(Join(Split(s)))
  }

  /** The concatenation of a sequence of strings. */
  function Concat(ts: seq<string>): string
  {
    if ts == [] then "" else ts[0] + Concat(ts[1..])
  }

  /** The non-whitespace characters of a text, in order. */
  function Squeeze(s: string): string
  {
    if s == [] then "" else (if IsSpace(s[0]) then "" else [s[0]]) + Squeeze(s[1..])
  }

  /** `pat` occurs in `s` starting at index k. */
  predicate OccursAt(s: string, pat: string, k: nat)
  {
    k + |pat| <= |s| && s[k..k + |pat|] == pat
  }

  /** str.replace(pat, sub): scanning from the left, every non-overlapping occurrence
      of pat becomes sub. An empty pat puts sub before every character and at the end. */
  function ReplaceAll(s: string, pat: string, sub: string): string
    decreases |s|
  {
    if pat == [] then Interleave(s, sub)
    else if |s| < |pat| then s
    else if s[..|pat|] == pat then sub + ReplaceAll(s[|pat|..], pat, sub)
    else [s[0]] + ReplaceAll(s[1..], pat, sub)
  }

  function Interleave(s: string, sub: string): string
  {
    if s == [] then sub else sub + [s[0]] + Interleave(s[1..], sub)
  }

  // ---------------------------------------------------------------------------
  // Splitting and joining

  /** The word length is where the first whitespace character, or the end, is. */
  lemma {:induction false} WordLengthSpec(s: string)
    ensures NoSpace(s[..WordLength(s)])
    ensures WordLength(s) == |s| || IsSpace(s[WordLength(s)])
  {
    if s != [] && !IsSpace(s[0]) {
      WordLengthSpec(s[1..]);
      var n := WordLength(s[1..]);
      assert s[..n + 1] == [s[0]] + s[1..][..n];
    }
  }

  lemma {:induction false} WordLengthIs(s: string, n: nat)
    requires n <= |s| && NoSpace(s[..n]) && (n == |s| || IsSpace(s[n]))
    ensures WordLength(s) == n
  {
    if n > 0 {
      assert s[0] == s[..n][0];
      assert s[1..][..n - 1] == s[..n][1..];
      WordLengthIs(s[1..], n - 1);
    }
  }

  /** A text starting with a word splits into that word and the split of the rest. */
  lemma SplitWord(s: string, n: nat)
    requires 0 < n <= |s| && NoSpace(s[..n]) && (n == |s| || IsSpace(s[n]))
    ensures Split(s) == [s[..n]] + Split(s[n..])
  {
    assert s[0] == s[..n][0];
    WordLengthIs(s, n);
  }

  /** Every piece of a split is non-empty and free of whitespace. */
  lemma {:induction false} SplitTokens(s: string)
    ensures AllTokens(Split(s))
    decreases |s|
  {
    if s != [] {
      if IsSpace(s[0]) {
        SplitTokens(s[1..]);
      } else {
        var n := WordLength(s);
        WordLengthSpec(s);
        SplitTokens(s[n..]);
        var ts := Split(s[n..]);
        assert IsToken(s[..n]);
        forall j | 1 <= j < |ts| + 1 ensures IsToken(([s[..n]] + ts)[j]) {
          assert ([s[..n]] + ts)[j] == ts[j - 1];
        }
      }
    }
  }

  lemma SplitSpace(s: string)
    requires s != [] && IsSpace(s[0])
    ensures Split(s) == Split(s[1..])
  {
  }

  lemma JoinCons(a: string, ts: seq<string>)
    requires ts != []
    ensures Join([a] + ts) == a + " " + Join(ts)
  {
    assert ([a] + ts)[1..] == ts;
  }

  lemma AllTokensTail(ts: seq<string>)
    requires AllTokens(ts) && ts != []
    ensures IsToken(ts[0]) && AllTokens(ts[1..])
  {
    forall k | 0 <= k < |ts| - 1 ensures IsToken(ts[1..][k]) {
      assert ts[1..][k] == ts[k + 1];
    }
  }

  /** Gluing a word, a space and whitespace-normal text keeps it whitespace-normal. */
  lemma NormalGlue(a: string, j: string)
    requires IsToken(a) && Normal(j) && j != [] && !IsSpace(j[0])
    ensures Normal(a + " " + j)
  {
    var s := a + " " + j;
    forall i | 0 <= i < |s| && IsSpace(s[i])
      ensures s[i] == ' ' && 0 < i < |s| - 1 && !IsSpace(s[i + 1])
    {
      if i > |a| {
        assert s[i] == j[i - |a| - 1];
        assert i + 1 < |s| ==> s[i + 1] == j[i - |a|];
      } else if i == |a| {
        assert s[i + 1] == j[0];
      }
    }
  }

  /** ' '.join of split pieces is whitespace-normal and starts with the first piece. */
  lemma {:induction false} JoinNormal(ts: seq<string>)
    requires AllTokens(ts)
    ensures Normal(Join(ts))
    ensures ts != [] ==> |Join(ts)| >= |ts[0]| && Join(ts)[..|ts[0]|] == ts[0]
  {
    if |ts| == 1 {
      assert IsToken(ts[0]);
    } else if |ts| > 1 {
      AllTokensTail(ts);
      AllTokensTail(ts[1..]);
      var a, j := ts[0], Join(ts[1..]);
      JoinNormal(ts[1..]);
      assert j[0] == j[..|ts[1]|][0] == ts[1][0];
      NormalGlue(a, j);
      assert (a + " " + j)[..|a|] == a;
    }
  }

  /** Splitting undoes joining: the pieces come back unchanged and in order. */
  lemma {:induction false} SplitJoin(ts: seq<string>)
    requires AllTokens(ts)
    ensures Split(Join(ts)) == ts
  {
    if |ts| == 1 {
      var t := ts[0];
      assert IsToken(t);
      assert t[..|t|] == t;
      SplitWord(t, |t|);
    } else if |ts| > 1 {
      AllTokensTail(ts);
      SplitJoin(ts[1..]);
      SplitCons(ts[0], Join(ts[1..]));
      assert ts == [ts[0]] + ts[1..];
    }
  }

  /** A word followed by a space splits off in front of the rest. */
  lemma SplitCons(a: string, j: string)
    requires IsToken(a)
    ensures Split(a + " " + j) == [a] + Split(j)
  {
    var s := a + " " + j;
    assert s[..|a|] == a && s[|a|] == ' ';
    SplitWord(s, |a|);
    assert s[|a|..] == " " + j;
    SplitSpace(" " + j);
    assert (" " + j)[1..] == j;
  }

  /** After a space inside whitespace-normal text comes whitespace-normal text. */
  lemma NormalTail(s: string, n: nat)
    requires Normal(s) && n < |s| && IsSpace(s[n])
    ensures s[n] == ' ' && n + 1 < |s|
    ensures Normal(s[n + 1..]) && !IsSpace(s[n + 1])
  {
    var rest := s[n + 1..];
    forall i | 0 <= i < |rest| && IsSpace(rest[i])
      ensures rest[i] == ' ' && 0 < i < |rest| - 1 && !IsSpace(rest[i + 1])
    {
      assert rest[i] == s[n + 1 + i];
      assert i + 1 < |rest| ==> rest[i + 1] == s[n + 2 + i];
    }
  }

  /** A text that is already whitespace-normal splits into pieces that join back to it. */
  lemma {:induction false} JoinSplitNormal(s: string)
    requires Normal(s)
    ensures Join(Split(s)) == s
    decreases |s|
  {
    if s != [] {
      var n := WordLength(s);
      WordLengthSpec(s);
      SplitWord(s, n);
      if n == |s| {
        assert s[n..] == [] && s[..n] == s;
      } else {
        var rest := s[n + 1..];
        NormalTail(s, n);
        SplitSpace(s[n..]);
        assert s[n..][1..] == rest;
        JoinSplitNormal(rest);
        JoinCons(s[..n], Split(rest));
        assert s == s[..n] + " " + rest;
      }
    }
  }

  /** str.strip() leaves whitespace-normal text alone. */
  lemma StripNormal(s: string)
    requires Normal(s)
    ensures Strip(s) == s
  {
    if s != [] {
      assert LeadingSpaces(s) == 0;
      assert s[0..] == s;
    }
  }

  /** The normalisation of line 46 yields whitespace-normal text. */
  lemma CollapseNormal(s: string)
    ensures Normal(Collapse(s))
    ensures Collapse(s) == Join(Split(s))
  {
    SplitTokens(s);
    JoinNormal(Split(s));
    StripNormal(Join(Split(s)));
  }

  /** Whitespace-normal text is a fixed point of the normalisation, so in particular
      normalising twice is normalising once. */
  lemma CollapseFixed(s: string)
    requires Normal(s)
    ensures Collapse(s) == s
  {
    JoinSplitNormal(s);
    StripNormal(s);
  }

  // ---------------------------------------------------------------------------
  // What the normalisation keeps

  lemma {:induction false} SqueezeAppend(a: string, b: string)
    ensures Squeeze(a + b) == Squeeze(a) + Squeeze(b)
  {
    if a == [] {
      assert a + b == b;
    } else {
      var head := if IsSpace(a[0]) then "" else [a[0]];
      assert (a + b)[0] == a[0] && (a + b)[1..] == a[1..] + b;
      SqueezeAppend(a[1..], b);
      calc {
        Squeeze(a + b);
        head + Squeeze(a[1..] + b);
        head + (Squeeze(a[1..]) + Squeeze(b));
        (head + Squeeze(a[1..])) + Squeeze(b);
      }
    }
  }

  lemma {:induction false} SqueezeWord(w: string)
    requires NoSpace(w)
    ensures Squeeze(w) == w
  {
    if w != [] {
      SqueezeWord(w[1..]);
    }
  }

  lemma {:induction false} SqueezeBlank(s: string)
    requires forall i :: 0 <= i < |s| ==> IsSpace(s[i])
    ensures Squeeze(s) == ""
  {
    if s != [] {
      SqueezeBlank(s[1..]);
    }
  }

  lemma SqueezeSpaceFront(j: string)
    ensures Squeeze(" " + j) == Squeeze(j)
  {
    assert (" " + j)[0] == ' ' && (" " + j)[1..] == j;
  }

  lemma SqueezeSeparated(w: string, j: string)
    requires NoSpace(w)
    ensures Squeeze(w + " " + j) == w + Squeeze(j)
  {
    assert w + " " + j == w + (" " + j);
    SqueezeAppend(w, " " + j);
    SqueezeWord(w);
    SqueezeSpaceFront(j);
  }

  lemma {:induction false} SqueezeJoin(ts: seq<string>)
    requires AllTokens(ts)
    ensures Squeeze(Join(ts)) == Concat(ts)
  {
    if |ts| == 1 {
      assert IsToken(ts[0]);
      SqueezeWord(ts[0]);
      assert Concat(ts) == ts[0] + Concat([]);
    } else if |ts| > 1 {
      AllTokensTail(ts);
      SqueezeJoin(ts[1..]);
      SqueezeSeparated(ts[0], Join(ts[1..]));
    }
  }

  lemma {:induction false} ConcatSplit(s: string)
    ensures Concat(Split(s)) == Squeeze(s)
    decreases |s|
  {
    if s != [] {
      if IsSpace(s[0]) {
        ConcatSplit(s[1..]);
      } else {
        var n := WordLength(s);
        WordLengthSpec(s);
        assert s == s[..n] + s[n..];
        SqueezeAppend(s[..n], s[n..]);
        SqueezeWord(s[..n]);
        ConcatSplit(s[n..]);
      }
    }
  }

  /** The normalisation keeps every non-whitespace character, in order, and adds none. */
  lemma CollapseKeepsText(s: string)
    ensures Squeeze(Collapse(s)) == Squeeze(s)
  {
    CollapseNormal(s);
    SplitTokens(s);
    SqueezeJoin(Split(s));
    ConcatSplit(s);
  }

  // ---------------------------------------------------------------------------
  // Replacing

  /** Looking one character further on in a text. */
  lemma OccursShift(s: string, pat: string, j: nat)
    requires s != []
    ensures OccursAt(s[1..], pat, j) <==> OccursAt(s, pat, j + 1)
  {
    if j + 1 + |pat| <= |s| {
      assert s[1..][j..j + |pat|] == s[j + 1..j + 1 + |pat|];
    }
  }

  lemma NoEarlierShift(s: string, pat: string, k: nat)
    requires s != [] && k > 0
    requires forall j: nat :: j < k ==> !OccursAt(s, pat, j)
    ensures forall j: nat :: j < k - 1 ==> !OccursAt(s[1..], pat, j)
  {
    forall j: nat | j < k - 1 ensures !OccursAt(s[1..], pat, j) {
      OccursShift(s, pat, j);
    }
  }

  /** Where the pattern does not start, str.replace keeps the character and moves on. */
  lemma ReplaceStep(s: string, pat: string, sub: string)
    requires pat != [] && |s| >= |pat| && !OccursAt(s, pat, 0)
    ensures ReplaceAll(s, pat, sub) == [s[0]] + ReplaceAll(s[1..], pat, sub)
  {
  }

  /** A text without the pattern comes out of str.replace unchanged. */
  lemma {:induction false} ReplaceAbsent(s: string, pat: string, sub: string)
    requires pat != []
    requires forall k: nat :: !OccursAt(s, pat, k)
    ensures ReplaceAll(s, pat, sub) == s
    decreases |s|
  {
    if |s| >= |pat| {
      ReplaceStep(s, pat, sub);
      forall k: nat ensures !OccursAt(s[1..], pat, k) {
        OccursShift(s, pat, k);
      }
      ReplaceAbsent(s[1..], pat, sub);
    }
  }

  lemma ReplaceFront(pat: string, post: string, sub: string)
    requires pat != []
    ensures ReplaceAll(pat + post, pat, sub) == sub + ReplaceAll(post, pat, sub)
  {
    assert (pat + post)[..|pat|] == pat && (pat + post)[|pat|..] == post;
  }

  /** str.replace rewrites the leftmost occurrence and carries on after it, so the
      occurrences that follow are rewritten too, wherever they are. */
  lemma NoEarlierTail(pre: string, pat: string, post: string)
    requires pre != []
    requires forall j: nat :: j < |pre| ==> !OccursAt(pre + pat + post, pat, j)
    ensures !OccursAt(pre + pat + post, pat, 0)
    ensures forall j: nat :: j < |pre| - 1 ==> !OccursAt(pre[1..] + pat + post, pat, j)
  {
    var s := pre + pat + post;
    assert s[1..] == pre[1..] + pat + post;
    NoEarlierShift(s, pat, |pre|);
  }

  lemma {:induction false} ReplaceLeftmost(pre: string, pat: string, post: string, sub: string)
    requires pat != []
    requires forall j: nat :: j < |pre| ==> !OccursAt(pre + pat + post, pat, j)
    ensures ReplaceAll(pre + pat + post, pat, sub) == pre + sub + ReplaceAll(post, pat, sub)
  {
    if pre == [] {
      ReplaceFront(pat, post, sub);
      assert pre + pat + post == pat + post && pre + sub == sub;
    } else {
      NoEarlierTail(pre, pat, post);
      ReplaceLeftmost(pre[1..], pat, post, sub);
      ReplaceKeepsHead(pre, pat, post, sub);
    }
  }

  /** One step of ReplaceLeftmost: the first character of pre is kept. */
  lemma ReplaceKeepsHead(pre: string, pat: string, post: string, sub: string)
    requires pat != [] && pre != [] && !OccursAt(pre + pat + post, pat, 0)
    requires ReplaceAll(pre[1..] + pat + post, pat, sub) == pre[1..] + sub + ReplaceAll(post, pat, sub)
    ensures ReplaceAll(pre + pat + post, pat, sub) == pre + sub + ReplaceAll(post, pat, sub)
  {
    HeadShapes(pre, pat, post);
    HeadShapes(pre, sub, ReplaceAll(post, pat, sub));
    ReplaceCons(pre + pat + post, pre[1..] + pat + post, pre[0], pat, sub);
  }

  /** A non-empty text followed by two more is its first character followed by
      the rest. */
  lemma HeadShapes(a: string, b: string, c: string)
    requires a != []
    ensures a + b + c == [a[0]] + (a[1..] + b + c)
  {
    assert a == [a[0]] + a[1..];
  }

  /** Where the pattern does not start the text, str.replace keeps the first
      character. */
  lemma ReplaceCons(s: string, t: string, c: char, pat: string, sub: string)
    requires pat != [] && |s| >= |pat| && !OccursAt(s, pat, 0) && s == [c] + t
    ensures ReplaceAll(s, pat, sub) == [c] + ReplaceAll(t, pat, sub)
  {
    ReplaceStep(s, pat, sub);
    assert s[1..] == t;
  }

  /** No character of pat occurs in sub. */
  predicate Avoids(pat: string, sub: string)
  {
    forall i :: 0 <= i < |pat| ==> pat[i] !in sub
  }

  /** Where the text starts with the pattern, str.replace's output starts with a
      character of sub. */
  lemma ReplaceHead(t: string, pat: string, sub: string, q: string)
    requires pat != [] && sub != [] && |t| >= |pat| && t[..|pat|] == pat
    requires q != [] && |q| <= |ReplaceAll(t, pat, sub)| && ReplaceAll(t, pat, sub)[..|q|] == q
    ensures q[0] in sub
  {
    assert ReplaceAll(t, pat, sub)[0] == sub[0];
  }

  /** Splitting a known prefix after its first character. */
  lemma PrefixTail(r: string, c: char, r': string, q: string)
    requires r == [c] + r' && q != [] && |q| <= |r| && r[..|q|] == q
    ensures c == q[0] && |q| - 1 <= |r'| && r'[..|q| - 1] == q[1..]
  {
    assert r[..|q|] == [c] + r'[..|q| - 1];
  }

  /** Rebuilding a prefix from its first character and the rest. */
  lemma PrefixCons(t: string, q: string)
    requires t != [] && q != [] && t[0] == q[0] && |q| - 1 <= |t[1..]| && t[1..][..|q| - 1] == q[1..]
    ensures |q| <= |t| && t[..|q|] == q
  {
    assert t[..|q|] == [t[0]] + t[1..][..|q| - 1];
  }

  lemma AvoidsTail(q: string, sub: string)
    requires q != [] && Avoids(q, sub)
    ensures Avoids(q[1..], sub)
  {
    forall i | 0 <= i < |q[1..]|
      ensures q[1..][i] !in sub
    {
      assert q[1..][i] == q[i + 1];
    }
  }

  /** When str.replace's output starts with a text q that shares no character with
      sub, no replacement happened within q: the input starts with q as well. */
  lemma {:induction false} ReplacePrefix(t: string, pat: string, sub: string, q: string)
    requires pat != [] && sub != [] && Avoids(q, sub)
    requires |q| <= |ReplaceAll(t, pat, sub)| && ReplaceAll(t, pat, sub)[..|q|] == q
    ensures |q| <= |t| && t[..|q|] == q
    decreases |t|
  {
    if q != [] && |t| >= |pat| {
      if t[..|pat|] == pat {
        ReplaceHead(t, pat, sub, q);
      } else {
        var r' := ReplaceAll(t[1..], pat, sub);
        ReplaceStep(t, pat, sub);
        PrefixTail(ReplaceAll(t, pat, sub), t[0], r', q);
        AvoidsTail(q, sub);
        ReplacePrefix(t[1..], pat, sub, q[1..]);
        PrefixCons(t, q);
      }
    }
  }

  /** An occurrence at the front of str.replace's output, where the text itself
      does not start with the pattern, is impossible when the pattern avoids sub. */
  lemma ReplaceNotFront(s: string, pat: string, sub: string)
    requires pat != [] && sub != [] && Avoids(pat, sub)
    requires |s| >= |pat| && s[..|pat|] != pat
    ensures !OccursAt(ReplaceAll(s, pat, sub), pat, 0)
  {
    if OccursAt(ReplaceAll(s, pat, sub), pat, 0) {
      ReplaceStep(s, pat, sub);
      PrefixTail(ReplaceAll(s, pat, sub), s[0], ReplaceAll(s[1..], pat, sub), pat);
      AvoidsTail(pat, sub);
      ReplacePrefix(s[1..], pat, sub, pat[1..]);
      PrefixCons(s, pat);
    }
  }

  /** Occurrences past a prefix are occurrences in the rest. */
  lemma OccursPast(a: string, b: string, pat: string, k: nat)
    requires k >= |a|
    ensures OccursAt(a + b, pat, k) <==> OccursAt(b, pat, k - |a|)
  {
    if k + |pat| <= |a + b| {
      assert (a + b)[k..k + |pat|] == b[k - |a|..k - |a| + |pat|];
    }
  }

  /** No occurrence starts inside a prefix made of characters the pattern avoids. */
  lemma OccursNotIn(a: string, b: string, pat: string, k: nat)
    requires pat != [] && Avoids(pat, a) && k < |a|
    ensures !OccursAt(a + b, pat, k)
  {
    assert (a + b)[k] == a[k] && a[k] in a;
  }

  /** str.replace leaves no occurrence of the pattern behind, provided the
      replacement shares no character with it (a replacement such as " #GO# "
      against a match made of digits and counters). */
  lemma {:induction false} ReplaceGone(s: string, pat: string, sub: string)
    requires pat != [] && sub != [] && Avoids(pat, sub)
    ensures forall k: nat :: !OccursAt(ReplaceAll(s, pat, sub), pat, k)
    decreases |s|
  {
    if |s| >= |pat| {
      if s[..|pat|] == pat {
        var rest := ReplaceAll(s[|pat|..], pat, sub);
        ReplaceGone(s[|pat|..], pat, sub);
        forall k: nat
          ensures !OccursAt(sub + rest, pat, k)
        {
          if k < |sub| {
            OccursNotIn(sub, rest, pat, k);
          } else {
            OccursPast(sub, rest, pat, k);
          }
        }
      } else {
        var rest := ReplaceAll(s[1..], pat, sub);
        ReplaceStep(s, pat, sub);
        ReplaceGone(s[1..], pat, sub);
        ReplaceNotFront(s, pat, sub);
        forall k: nat | k > 0
          ensures !OccursAt([s[0]] + rest, pat, k)
        {
          OccursPast([s[0]], rest, pat, k);
        }
      }
    }
  }

  /** str.strip() on a substitute such as " #GO# " gives back the marker. */
  lemma StripPadded(m: string)
    requires |m| > 0 && !IsSpace(m[0]) && !IsSpace(m[|m| - 1])
    ensures Strip(" " + m + " ") == m
  {
    var s := " " + m + " ";
    assert LeadingSpaces(s[1..]) == 0;
    var t := s[1..];
    assert t[..|t| - 1] == m;
    assert TrailingSpaces(t[..|t| - 1]) == 0;
  }

  /** A padded token at the front of a text splits off as one piece. */
  lemma SplitPadded(m: string, rest: string)
    requires IsToken(m)
    ensures Split(" " + m + " " + rest) == [m] + Split(rest)
  {
    var s := " " + m + " " + rest;
    SplitSpace(s);
    var u := s[1..];
    assert u == m + (" " + rest);
    assert u[..|m|] == m && u[|m|..] == " " + rest;
    SplitWord(u, |m|);
    SplitSpace(" " + rest);
    assert (" " + rest)[1..] == rest;
  }

  /** str.replace creates no occurrence of a text q that shares no character with
      sub: where q was absent before, it is absent after. */
  lemma {:induction false} ReplaceKeepsAbsent(s: string, pat: string, sub: string, q: string)
    requires pat != [] && sub != [] && q != [] && Avoids(q, sub)
    requires forall k: nat :: !OccursAt(s, q, k)
    ensures forall k: nat :: !OccursAt(ReplaceAll(s, pat, sub), q, k)
    decreases |s|
  {
    if |s| >= |pat| {
      if s[..|pat|] == pat {
        var rest := ReplaceAll(s[|pat|..], pat, sub);
        forall k: nat
          ensures !OccursAt(s[|pat|..], q, k)
        {
          assert s == s[..|pat|] + s[|pat|..];
          OccursPast(s[..|pat|], s[|pat|..], q, k + |pat|);
        }
        ReplaceKeepsAbsent(s[|pat|..], pat, sub, q);
        forall k: nat
          ensures !OccursAt(sub + rest, q, k)
        {
          if k < |sub| {
            OccursNotIn(sub, rest, q, k);
          } else {
            OccursPast(sub, rest, q, k);
          }
        }
      } else {
        var rest := ReplaceAll(s[1..], pat, sub);
        ReplaceStep(s, pat, sub);
        forall k: nat
          ensures !OccursAt(s[1..], q, k)
        {
          OccursShift(s, q, k);
        }
        ReplaceKeepsAbsent(s[1..], pat, sub, q);
        forall k: nat
          ensures !OccursAt([s[0]] + rest, q, k)
        {
          if k == 0 {
            if OccursAt([s[0]] + rest, q, 0) {
              ReplacePrefix(s, pat, sub, q);
              assert OccursAt(s, q, 0);
            }
          } else {
            OccursPast([s[0]], rest, q, k);
          }
        }
      }
    }
  }
}
