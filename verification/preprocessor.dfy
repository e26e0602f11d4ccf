/** `clean_text`: the comment normaliser. It deletes URL runs, `@mention`
    runs and `#` marks, then every character that is neither a word character
    nor whitespace, lowers the case, splits into tokens, drops stopwords and
    joins what is left with single spaces. The tokenizer is a whitespace split
    and the stopword list is a parameter. */
module Preprocessor {
  import opened Chars
  import opened Seqs

  // ---------------------------------------------------------------------------
  // Runs of characters

  /** Length of the run of non-whitespace characters at the front of `s`. */
  function NonSpaceRun(s: string): (n: nat)
    ensures n <= |s|
    ensures forall i :: 0 <= i < n ==> !IsSpace(s[i])
    ensures n < |s| ==> IsSpace(s[n])
    decreases |s|
  {
    if |s| == 0 || IsSpace(s[0]) then 0 else 1 + NonSpaceRun(s[1..])
  }

  /** Length of the run of word characters at the front of `s` (what `\w+` takes). */
  function WordRun(u: UnicodeTable, s: string): (n: nat)
    ensures n <= |s|
    ensures forall i :: 0 <= i < n ==> IsWord(u, s[i])
    ensures n < |s| ==> !IsWord(u, s[n])
    decreases |s|
  {
    if |s| == 0 || !IsWord(u, s[0]) then 0 else 1 + WordRun(u, s[1..])
  }

  predicate StartsWith(s: string, p: string) {
    |p| <= |s| && s[..|p|] == p
  }

  // ---------------------------------------------------------------------------
  // Step 1: `re.sub(r'http\S+|www\S+|https\S+', '', text)`

  /** A match of the URL pattern starts at the front of `s`. The pattern is
      case-sensitive, and its third alternative adds nothing: whatever
      `https\S+` matches, `http\S+` matches first. */
  predicate UrlAt(s: string) {
    || (StartsWith(s, "http") && |s| > 4 && !IsSpace(s[4]))
    || (StartsWith(s, "www") && |s| > 3 && !IsSpace(s[3]))
  }

  /** No match of the URL pattern starts anywhere in `s`. */
  predicate NoUrl(s: string) {
    forall i :: 0 <= i <= |s| ==> !UrlAt(s[i..])
  }

  /** Scan left to right; at a URL match delete it, and since `\S+` is greedy
      the match is the whole non-whitespace run; otherwise keep one character. */
  function StripUrls(s: string): string
    decreases |s|
  {
    if |s| == 0 then ""
    else if UrlAt(s) then
      assert s[0] in "hw";
      StripUrls(s[NonSpaceRun(s)..])
    else [s[0]] + StripUrls(s[1..])
  }

  /** One step of the scan where no match starts: the character is kept. */
  lemma StripUrlsKeep(s: string)
    requires |s| > 0 && !UrlAt(s)
    ensures StripUrls(s) == [s[0]] + StripUrls(s[1..])
  {
  }

  /** One step of the scan where a match starts: the run is deleted. */
  lemma StripUrlsSkip(s: string)
    requires |s| > 0 && UrlAt(s)
    ensures StripUrls(s) == StripUrls(s[NonSpaceRun(s)..])
  {
    StartsWithAt(s, "http", 0);
    StartsWithAt(s, "www", 0);
    assert s[0] in "hw";
  }

  lemma {:induction false} StripUrlsSubseq(s: string)
    ensures IsSubseq(StripUrls(s), s)
    decreases |s|
  {
    if |s| > 0 {
      if UrlAt(s) {
        assert s[0] in "hw";
        var n := NonSpaceRun(s);
        StripUrlsSubseq(s[n..]);
        SubseqDropPrefix(StripUrls(s[n..]), s, n);
      } else {
        StripUrlsSubseq(s[1..]);
        var r := StripUrls(s);
        assert r[0] == s[0] && r[1..] == StripUrls(s[1..]);
      }
    }
  }

  /** The non-whitespace run that starts the output is a prefix of the one
      that starts the input: a deleted URL always ends at whitespace. */
  lemma {:induction false} StripUrlsLeadingRun(s: string)
    ensures NonSpaceRun(StripUrls(s)) <= NonSpaceRun(s)
    ensures StripUrls(s)[..NonSpaceRun(StripUrls(s))] == s[..NonSpaceRun(StripUrls(s))]
    decreases |s|
  {
    if |s| == 0 {
    } else if UrlAt(s) {
      StripUrlsAfterUrl(s);
    } else if IsSpace(s[0]) {
      assert StripUrls(s)[0] == s[0];
    } else {
      StripUrlsKeep(s);
      StripUrlsLeadingRun(s[1..]);
      LeadingRunCons(s[0], s[1..], StripUrls(s[1..]));
    }
  }

  /** Putting the same non-whitespace character in front of `t` and of `r'`
      keeps `r'`'s leading run a prefix of `t`'s. */
  lemma LeadingRunCons(c: char, t: string, r': string)
    requires !IsSpace(c)
    requires NonSpaceRun(r') <= NonSpaceRun(t)
    requires r'[..NonSpaceRun(r')] == t[..NonSpaceRun(r')]
    ensures NonSpaceRun([c] + r') <= NonSpaceRun([c] + t)
    ensures ([c] + r')[..NonSpaceRun([c] + r')] == ([c] + t)[..NonSpaceRun([c] + r')]
  {
    var k := NonSpaceRun(r');
    NonSpaceRunCons(c, r');
    NonSpaceRunCons(c, t);
    assert NonSpaceRun([c] + r') == k + 1;
    RunPrefixCons(c, t, r', k);
  }

  /** Equal prefixes stay equal behind the same first character. */
  lemma RunPrefixCons(c: char, t: string, r': string, k: nat)
    requires k <= |r'| && k <= |t|
    requires r'[..k] == t[..k]
    ensures ([c] + r')[..k + 1] == ([c] + t)[..k + 1]
  {
    assert ([c] + r')[..k + 1] == [c] + r'[..k];
    assert ([c] + t)[..k + 1] == [c] + t[..k];
  }

  lemma NonSpaceRunCons(c: char, t: string)
    requires !IsSpace(c)
    ensures NonSpaceRun([c] + t) == 1 + NonSpaceRun(t)
  {
    assert ([c] + t)[0] == c && ([c] + t)[1..] == t;
  }

  /** After a deleted URL the output starts at whitespace or is empty. */
  lemma StripUrlsAfterUrl(s: string)
    requires |s| > 0 && UrlAt(s)
    ensures NonSpaceRun(StripUrls(s)) == 0
  {
    StripUrlsSkip(s);
    var t := s[NonSpaceRun(s)..];
    if |t| > 0 {
      NotUrlAtSpace(t);
      StripUrlsKeep(t);
    }
  }

  lemma NotUrlAtSpace(t: string)
    requires |t| > 0 && IsSpace(t[0])
    ensures !UrlAt(t)
  {
  }

  /** A URL match at the front of `c` followed by `r'` is also one at the
      front of `c` followed by `t`, when `r'` starts with a prefix of the
      non-whitespace run that starts `t`. */
  lemma UrlAtTransfer(c: char, t: string, r': string)
    requires NonSpaceRun(r') <= NonSpaceRun(t)
    requires r'[..NonSpaceRun(r')] == t[..NonSpaceRun(r')]
    ensures UrlAt([c] + r') ==> UrlAt([c] + t)
  {
    var r := [c] + r';
    if StartsWith(r, "http") && |r| > 4 && !IsSpace(r[4]) {
      assert r[..4] == [c] + r'[..3];
      assert r'[..3] == r[..4][1..];
      PrefixTransfer(c, t, r', "ttp");
    } else if StartsWith(r, "www") && |r| > 3 && !IsSpace(r[3]) {
      assert r[..3] == [c] + r'[..2];
      assert r'[..2] == r[..3][1..];
      PrefixTransfer(c, t, r', "ww");
    }
  }

  /** When `r'` starts with `p` and one more non-whitespace character, and
      `p` has no whitespace, `t` starts with the same characters. */
  lemma PrefixTransfer(c: char, t: string, r': string, p: string)
    requires NonSpaceRun(r') <= NonSpaceRun(t)
    requires r'[..NonSpaceRun(r')] == t[..NonSpaceRun(r')]
    requires forall i :: 0 <= i < |p| ==> !IsSpace(p[i])
    requires |r'| > |p| && r'[..|p|] == p && !IsSpace(r'[|p|])
    ensures |t| > |p| && t[..|p| + 1] == r'[..|p| + 1]
    ensures ([c] + t)[..|p| + 1] == [c] + p
    ensures ([c] + t)[|p| + 1] == r'[|p|]
  {
    var m := |p| + 1;
    NoSpaceBefore(r', p);
    SamePrefix(t, r', NonSpaceRun(r'), m);
    SamePrefix(t, r', m, |p|);
    ConsPrefix(c, t, p);
  }

  lemma NoSpaceBefore(r': string, p: string)
    requires forall i :: 0 <= i < |p| ==> !IsSpace(p[i])
    requires |r'| > |p| && r'[..|p|] == p && !IsSpace(r'[|p|])
    ensures NonSpaceRun(r') > |p|
  {
    if NonSpaceRun(r') <= |p| {
      assert false;
    }
  }

  /** Sequences that agree on their first `k` elements agree on their first `m <= k`. */
  lemma SamePrefix(t: string, r': string, k: nat, m: nat)
    requires m <= k <= |t| && k <= |r'| && r'[..k] == t[..k]
    ensures t[..m] == r'[..m]
  {
    assert t[..m] == t[..k][..m];
    assert r'[..m] == r'[..k][..m];
  }

  lemma ConsPrefix(c: char, t: string, p: string)
    requires |t| > |p| && t[..|p|] == p
    ensures ([c] + t)[..|p| + 1] == [c] + p
    ensures ([c] + t)[|p| + 1] == t[|p|]
  {
  }

  /** After the URL step no URL match is left anywhere in the text. */
  lemma {:induction false} StripUrlsRemovesAll(s: string)
    ensures NoUrl(StripUrls(s))
    decreases |s|
  {
    if |s| > 0 {
      if UrlAt(s) {
        StripUrlsSkip(s);
        StripUrlsRemovesAll(s[NonSpaceRun(s)..]);
      } else {
        StripUrlsKeep(s);
        StripUrlsRemovesAll(s[1..]);
        StripUrlsLeadingRun(s[1..]);
        assert s == [s[0]] + s[1..];
        NoUrlCons(s[0], s[1..], StripUrls(s[1..]));
      }
    }
  }

  /** Putting a character in front of a URL-less text makes no match, when
      the same character in front of `t` makes none and `r'`'s leading run
      is a prefix of `t`'s. */
  lemma NoUrlCons(c: char, t: string, r': string)
    requires NoUrl(r') && !UrlAt([c] + t)
    requires NonSpaceRun(r') <= NonSpaceRun(t)
    requires r'[..NonSpaceRun(r')] == t[..NonSpaceRun(r')]
    ensures NoUrl([c] + r')
  {
    var r := [c] + r';
    UrlAtTransfer(c, t, r');
    assert r[0..] == r;
    forall i | 0 < i <= |r|
      ensures !UrlAt(r[i..])
    {
      assert r[i..] == r'[i - 1..];
    }
  }

  /** A text with no URL match passes the URL step unchanged. */
  lemma {:induction false} StripUrlsKeepsClean(s: string)
    requires NoUrl(s)
    ensures StripUrls(s) == s
    decreases |s|
  {
    if |s| > 0 {
      assert !UrlAt(s[0..]);
      assert s[0..] == s;
      assert NoUrl(s[1..]) by {
        forall i | 0 <= i <= |s[1..]|
          ensures !UrlAt(s[1..][i..])
        {
          assert s[1..][i..] == s[i + 1..];
        }
      }
      StripUrlsKeepsClean(s[1..]);
      assert s == [s[0]] + s[1..];
    }
  }

  /** No URL match starts inside `a`, whatever follows it: every `h` is
      followed by something other than `t`, every `w` by something other
      than `w`. */
  predicate UrlFree(a: string) {
    forall i :: 0 <= i < |a| && a[i] in "hw" ==> i + 1 < |a| && a[i + 1] != 't' && a[i + 1] != 'w'
  }

  /** A URL-free prefix passes the URL step unchanged. */
  lemma {:induction false} StripUrlsKeepsUrlFree(a: string, b: string)
    requires UrlFree(a)
    ensures StripUrls(a + b) == a + StripUrls(b)
    decreases |a|
  {
    if |a| == 0 {
      assert a + b == b;
    } else {
      UrlFreeStep(a, b);
      UrlFreeTail(a);
      StripUrlsKeepsUrlFree(a[1..], b);
      ConsTail(a, StripUrls(b));
    }
  }

  lemma UrlFreeStep(a: string, b: string)
    requires UrlFree(a) && |a| > 0
    ensures StripUrls(a + b) == [a[0]] + StripUrls(a[1..] + b)
  {
    var s := a + b;
    NoUrlAtUrlFree(a, b);
    StripUrlsKeep(s);
    assert s[1..] == a[1..] + b;
  }

  lemma ConsTail(a: string, x: string)
    requires |a| > 0
    ensures [a[0]] + (a[1..] + x) == a + x
  {
    assert a == [a[0]] + a[1..];
  }

  lemma UrlFreeTail(a: string)
    requires UrlFree(a) && |a| > 0
    ensures UrlFree(a[1..])
  {
    forall i | 0 <= i < |a| - 1 && a[1..][i] in "hw"
      ensures i + 1 < |a| - 1 && a[1..][i + 1] != 't' && a[1..][i + 1] != 'w'
    {
      assert a[1..][i] == a[i + 1];
    }
  }

  /** URL-free texts stay URL-free when joined: a URL-free text cannot end
      in `h` or `w`. */
  lemma UrlFreeConcat(a: string, b: string)
    requires UrlFree(a) && UrlFree(b)
    ensures UrlFree(a + b)
  {
    var s := a + b;
    forall i | 0 <= i < |s| && s[i] in "hw"
      ensures i + 1 < |s| && s[i + 1] != 't' && s[i + 1] != 'w'
    {
      if i < |a| {
        assert s[i] == a[i] && s[i + 1] == a[i + 1];
      } else {
        assert s[i] == b[i - |a|];
        assert s[i + 1] == b[i - |a| + 1];
      }
    }
  }

  lemma NoUrlAtUrlFree(a: string, b: string)
    requires UrlFree(a) && |a| > 0
    ensures (a + b)[0] == a[0] && !UrlAt(a + b)
  {
    var s := a + b;
    assert s[0] == a[0];
    assert a[0] in "hw" ==> s[1] == a[1];
    StartsWithAt(s, "http", 1);
    StartsWithAt(s, "www", 1);
  }

  lemma StartsWithAt(s: string, p: string, i: nat)
    requires i < |p|
    ensures StartsWith(s, p) ==> i < |s| && s[i] == p[i]
  {
    if StartsWith(s, p) {
      assert s[..|p|][i] == s[i];
    }
  }

  /** A URL, up to the whitespace that ends it, is deleted. */
  lemma UrlDeleted(w: string, t: string)
    requires UrlAt(w)
    requires forall i :: 0 <= i < |w| ==> !IsSpace(w[i])
    requires |t| == 0 || IsSpace(t[0])
    ensures StripUrls(w + t) == StripUrls(t)
  {
    var s := w + t;
    assert s[..3] == w[..3] && s[3] == w[3];
    assert |w| > 4 ==> s[..4] == w[..4] && s[4] == w[4];
    assert UrlAt(s);
    NonSpaceRunOf(w, t);
    assert s[|w|..] == t;
  }

  // ---------------------------------------------------------------------------
  // Step 2: `re.sub(r'\@\w+|\#', '', text)`

  /** An `@` followed by at least one word character starts a mention match. */
  predicate MentionAt(u: UnicodeTable, s: string) {
    |s| >= 2 && s[0] == '@' && IsWord(u, s[1])
  }

  /** Delete each mention (`@` and its whole word run) and each `#`; a `@`
      not followed by a word character is kept. */
  function StripMentions(u: UnicodeTable, s: string): string
    decreases |s|
  {
    if |s| == 0 then ""
    else if MentionAt(u, s) then StripMentions(u, s[1 + WordRun(u, s[1..])..])
    else if s[0] == '#' then StripMentions(u, s[1..])
    else [s[0]] + StripMentions(u, s[1..])
  }

  /** The mention step only deletes characters, and it deletes every `#`. */
  lemma {:induction false} StripMentionsShape(u: UnicodeTable, s: string)
    ensures IsSubseq(StripMentions(u, s), s)
    ensures '#' !in StripMentions(u, s)
    decreases |s|
  {
    if |s| > 0 {
      if MentionAt(u, s) {
        var n := 1 + WordRun(u, s[1..]);
        StripMentionsShape(u, s[n..]);
        SubseqDropPrefix(StripMentions(u, s[n..]), s, n);
      } else if s[0] == '#' {
        StripMentionsShape(u, s[1..]);
        SubseqDropPrefix(StripMentions(u, s[1..]), s, 1);
      } else {
        StripMentionsShape(u, s[1..]);
        var r := StripMentions(u, s);
        assert r == [s[0]] + StripMentions(u, s[1..]);
        assert r[0] == s[0] && r[1..] == StripMentions(u, s[1..]);
      }
    }
  }

  /** A mention, `@` and the whole word run after it, is deleted. */
  lemma {:induction false} MentionDeleted(u: UnicodeTable, w: string, t: string)
    requires |w| > 0
    requires forall i :: 0 <= i < |w| ==> IsWord(u, w[i])
    requires |t| == 0 || !IsWord(u, t[0])
    ensures StripMentions(u, "@" + w + t) == StripMentions(u, t)
  {
    var s := "@" + w + t;
    assert MentionAt(u, s);
    WordRunOf(u, w, t);
    assert s[1..] == w + t;
    assert s[1 + |w|..] == t;
  }

  lemma {:induction false} WordRunOf(u: UnicodeTable, w: string, t: string)
    requires forall i :: 0 <= i < |w| ==> IsWord(u, w[i])
    requires |t| == 0 || !IsWord(u, t[0])
    ensures WordRun(u, w + t) == |w|
    decreases |w|
  {
    if |w| > 0 {
      assert (w + t)[1..] == w[1..] + t;
      WordRunOf(u, w[1..], t);
    } else {
      assert w + t == t;
    }
  }

  /** A hashtag loses its `#` but keeps its text: `#Awesome` becomes `Awesome`. */
  lemma {:induction false} HashtagTextKept(u: UnicodeTable, w: string, t: string)
    requires forall i :: 0 <= i < |w| ==> IsWord(u, w[i])
    ensures StripMentions(u, "#" + w + t) == w + StripMentions(u, t)
  {
    assert ("#" + w + t)[1..] == w + t;
    WordsKept(u, w, t);
  }

  /** Word characters at the front of a text that does not start with a
      mention are kept, since no word character is `@` or `#`. */
  lemma {:induction false} WordsKept(u: UnicodeTable, w: string, t: string)
    requires forall i :: 0 <= i < |w| ==> IsWord(u, w[i])
    ensures StripMentions(u, w + t) == w + StripMentions(u, t)
    decreases |w|
  {
    if |w| > 0 {
      var s := w + t;
      assert s[0] == w[0] && s[1..] == w[1..] + t;
      StripMentionsKeep(u, s);
      WordsKept(u, w[1..], t);
      AppendAssoc([w[0]], w[1..], StripMentions(u, t));
      assert w == [w[0]] + w[1..];
    } else {
      assert w + t == t;
    }
  }

  /** One step of the mention scan at a character other than `@` and `#`:
      the character is kept. */
  lemma StripMentionsKeep(u: UnicodeTable, s: string)
    requires |s| > 0 && s[0] != '@' && s[0] != '#'
    ensures StripMentions(u, s) == [s[0]] + StripMentions(u, s[1..])
  {
  }

  /** A text without `@` or `#` passes the mention step unchanged. */
  lemma {:induction false} StripMentionsKeepsPlain(u: UnicodeTable, s: string)
    requires '@' !in s && '#' !in s
    ensures StripMentions(u, s) == s
    decreases |s|
  {
    if |s| > 0 {
      StripMentionsKeepsPlain(u, s[1..]);
      assert s == [s[0]] + s[1..];
    }
  }

  /** A prefix without `@` or `#` passes the mention step unchanged. */
  lemma {:induction false} StripMentionsKeepsPlainPrefix(u: UnicodeTable, a: string, b: string)
    requires '@' !in a && '#' !in a
    ensures StripMentions(u, a + b) == a + StripMentions(u, b)
    decreases |a|
  {
    if |a| == 0 {
      assert a + b == b;
    } else {
      var s := a + b;
      assert s[0] == a[0] && s[1..] == a[1..] + b;
      assert a[0] in a;
      assert forall c :: c in a[1..] ==> c in a;
      StripMentionsKeepsPlainPrefix(u, a[1..], b);
      assert a == [a[0]] + a[1..];
    }
  }

  // ---------------------------------------------------------------------------
  // Step 3: `re.sub(r'[^\w\s]', '', text)`

  /** Deletes every character that is neither a word character nor whitespace,
      and only those: the kept characters appear as often as in the input. */
  function StripPunct(u: UnicodeTable, s: string): (r: string)
    ensures forall i :: 0 <= i < |r| ==> IsWord(u, r[i]) || IsSpace(r[i])
    ensures IsSubseq(r, s)
    ensures forall c :: IsWord(u, c) || IsSpace(c) ==> multiset(r)[c] == multiset(s)[c]
  {
    Filter(s, c => IsWord(u, c) || IsSpace(c))
  }

  // ---------------------------------------------------------------------------
  // Step 4: `word_tokenize(text.lower())`

  function LowerText(u: UnicodeTable, s: string): (r: string)
    ensures |r| == |s|
  {
    seq(|s|, i requires 0 <= i < |s| => Lower(u, s[i]))
  }

  /** Lowering keeps a word-and-whitespace text word-and-whitespace, and its
      result is already lower case. */
  lemma LowerTextShape(u: UnicodeTable, s: string)
    requires ValidTable(u)
    requires forall i :: 0 <= i < |s| ==> IsWord(u, s[i]) || IsSpace(s[i])
    ensures forall i :: 0 <= i < |LowerText(u, s)| ==>
      var c := LowerText(u, s)[i];
      (IsWord(u, c) || IsSpace(c)) && Lower(u, c) == c
  {
  }

  /** Whitespace tokenizer: the maximal runs of non-whitespace characters. */
  function Split(s: string): (ts: seq<string>)
    ensures forall i :: 0 <= i < |ts| ==> |ts[i]| > 0
    decreases |s|
  {
    if |s| == 0 then []
    else if IsSpace(s[0]) then Split(s[1..])
    else
      var n := NonSpaceRun(s);
      [s[..n]] + Split(s[n..])
  }

  /** Tokens hold no whitespace, and only characters of the text. */
  lemma {:induction false} SplitChars(s: string)
    ensures forall i, j :: 0 <= i < |Split(s)| && 0 <= j < |Split(s)[i]| ==>
      !IsSpace(Split(s)[i][j]) && Split(s)[i][j] in s
    decreases |s|
  {
    if |s| > 0 && IsSpace(s[0]) {
      SplitSkip(s);
      SplitChars(s[1..]);
      InSuffix(s, 1);
    } else if |s| > 0 {
      var n := NonSpaceRun(s);
      SplitTake(s);
      SplitChars(s[n..]);
      InSuffix(s, n);
      var ts := Split(s);
      forall j | 0 <= j < |ts[0]|
        ensures !IsSpace(ts[0][j]) && ts[0][j] in s
      {
        assert ts[0][j] == s[j];
      }
      assert forall i :: 1 <= i < |ts| ==> ts[i] == Split(s[n..])[i - 1];
    }
  }

  /** A whitespace-free word followed by whitespace (or nothing) is the
      first token. */
  lemma SplitWord(w: string, t: string)
    requires |w| > 0 && forall i :: 0 <= i < |w| ==> !IsSpace(w[i])
    requires |t| == 0 || IsSpace(t[0])
    ensures Split(w + t) == [w] + Split(t)
  {
    var s := w + t;
    NonSpaceRunOf(w, t);
    assert s[0] == w[0];
    assert s[..|w|] == w && s[|w|..] == t;
  }

  /** Leading whitespace yields no token. */
  lemma SplitSpace(c: char, t: string)
    requires IsSpace(c)
    ensures Split([c] + t) == Split(t)
  {
    assert ([c] + t)[1..] == t;
  }

  /** A whitespace character ends every token before it: the run that
      starts `a` is the same whatever follows the whitespace. */
  lemma {:induction false} NonSpaceRunBefore(a: string, c: char, b: string)
    requires IsSpace(c)
    ensures NonSpaceRun(a + [c] + b) == NonSpaceRun(a)
    decreases |a|
  {
    if |a| > 0 && !IsSpace(a[0]) {
      assert (a + [c] + b)[0] == a[0] && (a + [c] + b)[1..] == a[1..] + [c] + b;
      NonSpaceRunBefore(a[1..], c, b);
    } else if |a| > 0 {
      assert (a + [c] + b)[0] == a[0];
    } else {
      assert (a + [c] + b)[0] == c;
    }
  }

  /** Tokenizing splits at whitespace: the tokens of a text are those before
      any whitespace character followed by those after it. */
  lemma {:induction false} SplitAtSpace(a: string, c: char, b: string)
    requires IsSpace(c)
    ensures Split(a + [c] + b) == Split(a) + Split(b)
    decreases |a|, 1
  {
    if |a| == 0 {
      assert a + [c] + b == [c] + b;
      SplitSpace(c, b);
    } else if IsSpace(a[0]) {
      SplitAtSpaceSkip(a, c, b);
      SplitAtSpace(a[1..], c, b);
    } else {
      SplitAtWord(a, c, b);
    }
  }

  lemma {:induction false} SplitAtWord(a: string, c: char, b: string)
    requires IsSpace(c) && |a| > 0 && !IsSpace(a[0])
    ensures Split(a + [c] + b) == Split(a) + Split(b)
    decreases |a|, 0
  {
    var n := NonSpaceRun(a);
    SplitAtSpaceTake(a, c, b);
    SplitAtSpace(a[n..], c, b);
    AppendAssoc([a[..n]], Split(a[n..]), Split(b));
  }

  lemma SplitAtSpaceSkip(a: string, c: char, b: string)
    requires |a| > 0 && IsSpace(a[0])
    ensures Split(a + [c] + b) == Split(a[1..] + [c] + b)
    ensures Split(a) == Split(a[1..])
  {
    var s := a + [c] + b;
    assert s[0] == a[0] && s[1..] == a[1..] + [c] + b;
    SplitSkip(s);
    SplitSkip(a);
  }

  lemma SplitAtSpaceTake(a: string, c: char, b: string)
    requires IsSpace(c) && |a| > 0 && !IsSpace(a[0])
    ensures var n := NonSpaceRun(a);
      && n > 0
      && Split(a + [c] + b) == [a[..n]] + Split(a[n..] + [c] + b)
      && Split(a) == [a[..n]] + Split(a[n..])
  {
    var s := a + [c] + b;
    var n := NonSpaceRun(a);
    NonSpaceRunBefore(a, c, b);
    assert s[0] == a[0];
    assert s[..n] == a[..n];
    assert s[n..] == a[n..] + [c] + b;
    SplitTake(s);
    SplitTake(a);
  }

  lemma InSuffix(s: string, k: nat)
    requires k <= |s|
    ensures forall c :: c in s[k..] ==> c in s
  {
    forall c | c in s[k..]
      ensures c in s
    {
      var i :| 0 <= i < |s[k..]| && s[k..][i] == c;
      assert s[k + i] == c;
    }
  }

  /** One step of the tokenizer at whitespace: it is skipped. */
  lemma SplitSkip(s: string)
    requires |s| > 0 && IsSpace(s[0])
    ensures Split(s) == Split(s[1..])
  {
  }

  /** One step of the tokenizer at a word: the run becomes a token. */
  lemma SplitTake(s: string)
    requires |s| > 0 && !IsSpace(s[0])
    ensures Split(s) == [s[..NonSpaceRun(s)]] + Split(s[NonSpaceRun(s)..])
  {
  }

  /** A whitespace-free word is one token. */
  lemma OneWord(w: string)
    requires |w| > 0 && forall i :: 0 <= i < |w| ==> !IsSpace(w[i])
    ensures Split(w) == [w]
  {
    SplitWord(w, "");
    assert w + "" == w;
  }

  // ---------------------------------------------------------------------------
  // Steps 5 and 6: stopword filter and `" ".join(...)`

  /** Drops the tokens in `stop`; every other token is kept, in order. */
  function FilterStop(ts: seq<string>, stop: set<string>): (r: seq<string>)
    ensures forall i :: 0 <= i < |r| ==> r[i] !in stop
    ensures IsSubseq(r, ts)
    ensures forall t :: t !in stop ==> multiset(r)[t] == multiset(ts)[t]
  {
    Filter(ts, t => t !in stop)
  }

  /** The filter decides each token on its own. */
  lemma FilterStopCons(t: string, ts: seq<string>, stop: set<string>)
    ensures FilterStop([t] + ts, stop) == (if t in stop then [] else [t]) + FilterStop(ts, stop)
  {
    FilterCons(t, ts, t => t !in stop);
  }

  function Join(ts: seq<string>): string
    decreases |ts|
  {
    if |ts| == 0 then ""
    else if |ts| == 1 then ts[0]
    else ts[0] + " " + Join(ts[1..])
  }

  /** Non-empty tokens without whitespace. */
  predicate Tokens(ts: seq<string>) {
    forall i, j :: 0 <= i < |ts| && 0 <= j < |ts[i]| ==> !IsSpace(ts[i][j])
  }

  predicate NonEmptyTokens(ts: seq<string>) {
    Tokens(ts) && forall i :: 0 <= i < |ts| ==> |ts[i]| > 0
  }

  /** No whitespace at either end, and whitespace only as single spaces. */
  predicate SingleSpaced(s: string) {
    && (|s| > 0 ==> !IsSpace(s[0]) && !IsSpace(s[|s| - 1]))
    && forall i :: 0 <= i < |s| && IsSpace(s[i]) ==> s[i] == ' ' && i + 1 < |s| && !IsSpace(s[i + 1])
  }

  lemma {:induction false} NonSpaceRunOf(w: string, t: string)
    requires forall i :: 0 <= i < |w| ==> !IsSpace(w[i])
    requires |t| == 0 || IsSpace(t[0])
    ensures NonSpaceRun(w + t) == |w|
    decreases |w|
  {
    if |w| > 0 {
      assert (w + t)[1..] == w[1..] + t;
      NonSpaceRunOf(w[1..], t);
    } else {
      assert w + t == t;
    }
  }

  /** Splitting a space-joined list of tokens gives the tokens back. */
  lemma {:induction false} SplitJoin(ts: seq<string>)
    requires NonEmptyTokens(ts)
    ensures Split(Join(ts)) == ts
    decreases |ts|
  {
    if |ts| == 1 {
      NonSpaceRunOf(ts[0], "");
      assert ts[0] + "" == ts[0];
      assert ts[0][|ts[0]|..] == "";
      assert ts[0][..|ts[0]|] == ts[0];
    } else if |ts| > 1 {
      var rest := Join(ts[1..]);
      var s := ts[0] + " " + rest;
      assert s == ts[0] + (" " + rest);
      NonSpaceRunOf(ts[0], " " + rest);
      assert s[0] == ts[0][0];
      assert s[..|ts[0]|] == ts[0];
      assert s[|ts[0]|..] == " " + rest;
      assert (" " + rest)[1..] == rest;
      SplitJoin(ts[1..]);
      assert ts == [ts[0]] + ts[1..];
    }
  }

  /** Joining non-empty whitespace-free tokens puts exactly one space between
      neighbours and none at the ends. */
  lemma {:induction false} JoinSingleSpaced(ts: seq<string>)
    requires NonEmptyTokens(ts)
    ensures SingleSpaced(Join(ts))
    decreases |ts|
  {
    if |ts| > 1 {
      JoinSingleSpaced(ts[1..]);
      JoinFirst(ts[1..]);
      var w := ts[0];
      var rest := Join(ts[1..]);
      var s := w + " " + rest;
      assert |rest| > 0;
      forall i | 0 <= i < |s| && IsSpace(s[i])
        ensures s[i] == ' ' && i + 1 < |s| && !IsSpace(s[i + 1])
      {
        if i == |w| {
          assert s[i + 1] == rest[0];
        } else {
          assert s[i] == rest[i - |w| - 1];
          assert s[i + 1] == rest[i - |w|];
        }
      }
      assert s[0] == w[0];
      assert s[|s| - 1] == rest[|rest| - 1];
    }
  }

  lemma {:induction false} JoinFirst(ts: seq<string>)
    requires NonEmptyTokens(ts) && |ts| > 0
    ensures |Join(ts)| > 0 && Join(ts)[0] == ts[0][0]
  {
  }

  /** Every character of the joined text is a space or a character of a
      token, so any property all token characters share survives the join. */
  lemma {:induction false} JoinChars(ts: seq<string>, p: char -> bool)
    requires forall i, j :: 0 <= i < |ts| && 0 <= j < |ts[i]| ==> p(ts[i][j])
    ensures forall k :: 0 <= k < |Join(ts)| ==> Join(ts)[k] == ' ' || p(Join(ts)[k])
    decreases |ts|
  {
    if |ts| > 1 {
      JoinChars(ts[1..], p);
      var s := Join(ts);
      assert s == ts[0] + " " + Join(ts[1..]);
      forall k | 0 <= k < |s|
        ensures s[k] == ' ' || p(s[k])
      {
        if k < |ts[0]| {
          assert s[k] == ts[0][k];
        } else if k > |ts[0]| {
          assert s[k] == Join(ts[1..])[k - |ts[0]| - 1];
        }
      }
    } else if |ts| == 1 {
      assert forall k :: 0 <= k < |ts[0]| ==> p(ts[0][k]);
    }
  }

  // ---------------------------------------------------------------------------
  // The whole pipeline

  /** The text after the three deletions and lowering, before tokenizing. */
  function Normalised(u: UnicodeTable, s: string): string {
    LowerText(u, StripPunct(u, StripMentions(u, StripUrls(s))))
  }

  /** `clean_text(text)` for a `str` argument (any other argument makes
      `re.sub` raise, so the domain is strings). */
  function CleanText(u: UnicodeTable, stop: set<string>, s: string): string {
    Join(FilterStop(Split(Normalised(u, s)), stop))
  }

  /** A character the cleaner may emit inside a token. */
  predicate LowerWord(u: UnicodeTable, c: char) {
    IsWord(u, c) && Lower(u, c) == c
  }

  /** The normalised text holds only lower-case word characters and whitespace. */
  lemma NormalisedShape(u: UnicodeTable, s: string)
    requires ValidTable(u)
    ensures forall i :: 0 <= i < |Normalised(u, s)| ==>
      IsSpace(Normalised(u, s)[i]) || LowerWord(u, Normalised(u, s)[i])
  {
    LowerTextShape(u, StripPunct(u, StripMentions(u, StripUrls(s))));
  }

  /** The tokens that survive the stopword filter are non-empty and made of
      lower-case word characters only. */
  lemma KeptTokensShape(u: UnicodeTable, stop: set<string>, n: string)
    requires forall i :: 0 <= i < |n| ==> IsSpace(n[i]) || LowerWord(u, n[i])
    ensures NonEmptyTokens(FilterStop(Split(n), stop))
    ensures forall i, j :: 0 <= i < |FilterStop(Split(n), stop)| && 0 <= j < |FilterStop(Split(n), stop)[i]| ==>
      LowerWord(u, FilterStop(Split(n), stop)[i][j])
  {
    var ts := Split(n);
    var kept := FilterStop(ts, stop);
    SplitChars(n);
    SubseqMembers(kept, ts);
    forall i | 0 <= i < |kept|
      ensures |kept[i]| > 0
      ensures forall j :: 0 <= j < |kept[i]| ==> !IsSpace(kept[i][j]) && LowerWord(u, kept[i][j])
    {
      assert kept[i] in ts;
      var i' :| 0 <= i' < |ts| && ts[i'] == kept[i];
      forall j | 0 <= j < |kept[i]|
        ensures !IsSpace(kept[i][j]) && LowerWord(u, kept[i][j])
      {
        assert ts[i'][j] in n;
      }
    }
  }

  /** What the cleaner promises about its output: only lower-case word
      characters and single spaces, no stopword token, and its tokens are
      exactly the tokens of the normalised text that are not stopwords, in
      the same order, each as often as in the normalised text. */
  lemma CleanTextShape(u: UnicodeTable, stop: set<string>, s: string)
    requires ValidTable(u)
    ensures var r := CleanText(u, stop, s);
      && (forall k :: 0 <= k < |r| ==> r[k] == ' ' || LowerWord(u, r[k]))
      && SingleSpaced(r)
      && (forall i :: 0 <= i < |Split(r)| ==> Split(r)[i] !in stop)
      && IsSubseq(Split(r), Split(Normalised(u, s)))
    ensures Split(CleanText(u, stop, s)) == FilterStop(Split(Normalised(u, s)), stop)
    ensures forall t :: t !in stop ==>
      multiset(Split(CleanText(u, stop, s)))[t] == multiset(Split(Normalised(u, s)))[t]
  {
    NormalisedShape(u, s);
    JoinedShape(u, stop, Normalised(u, s));
  }

  /** The join-after-filter half of the cleaner, for any text made of
      whitespace and lower-case word characters. */
  lemma JoinedShape(u: UnicodeTable, stop: set<string>, n: string)
    requires forall i :: 0 <= i < |n| ==> IsSpace(n[i]) || LowerWord(u, n[i])
    ensures var r := Join(FilterStop(Split(n), stop));
      && (forall k :: 0 <= k < |r| ==> r[k] == ' ' || LowerWord(u, r[k]))
      && SingleSpaced(r)
      && (forall i :: 0 <= i < |Split(r)| ==> Split(r)[i] !in stop)
      && IsSubseq(Split(r), Split(n))
    ensures Split(Join(FilterStop(Split(n), stop))) == FilterStop(Split(n), stop)
  {
    KeptTokensShape(u, stop, n);
    var kept := FilterStop(Split(n), stop);
    JoinLowerWords(u, kept);
    JoinSingleSpaced(kept);
    JoinedTokens(stop, n);
  }

  lemma JoinLowerWords(u: UnicodeTable, ts: seq<string>)
    requires forall i, j :: 0 <= i < |ts| && 0 <= j < |ts[i]| ==> LowerWord(u, ts[i][j])
    ensures forall k :: 0 <= k < |Join(ts)| ==> Join(ts)[k] == ' ' || LowerWord(u, Join(ts)[k])
  {
    var p := c => LowerWord(u, c);
    assert forall i, j :: 0 <= i < |ts| && 0 <= j < |ts[i]| ==> p(ts[i][j]);
    JoinChars(ts, p);
  }

  /** The joined tokens split back into the kept tokens: no stopword, and a
      subsequence of the text's tokens. */
  lemma JoinedTokens(stop: set<string>, n: string)
    requires NonEmptyTokens(FilterStop(Split(n), stop))
    ensures var ts := Split(Join(FilterStop(Split(n), stop)));
      && (forall i :: 0 <= i < |ts| ==> ts[i] !in stop)
      && IsSubseq(ts, Split(n))
    ensures Split(Join(FilterStop(Split(n), stop))) == FilterStop(Split(n), stop)
  {
    SplitJoin(FilterStop(Split(n), stop));
  }

  /** A text whose every remaining token is a stopword cleans to the empty
      string. URLs and mentions are gone before tokenizing; a text of URLs
      alone is `UrlsOnlyCleanToEmpty`. */
  lemma CleanTextAllStopwords(u: UnicodeTable, stop: set<string>, s: string)
    requires forall i :: 0 <= i < |Split(Normalised(u, s))| ==> Split(Normalised(u, s))[i] in stop
    ensures CleanText(u, stop, s) == ""
  {
    var ts := Split(Normalised(u, s));
    var kept := FilterStop(ts, stop);
    SubseqMembers(kept, ts);
  }

  /** Whitespace and nothing else. */
  predicate Blank(s: string) {
    forall i :: 0 <= i < |s| ==> IsSpace(s[i])
  }

  /** Whitespace-free URL matches, such as `https://a.b` or `www.x.y`. */
  predicate UrlWords(ws: seq<string>) {
    forall i :: 0 <= i < |ws| ==> UrlAt(ws[i]) && forall j :: 0 <= j < |ws[i]| ==> !IsSpace(ws[i][j])
  }

  /** The URL step deletes every URL of a space-joined list and keeps only
      the separating spaces. */
  lemma {:induction false} StripUrlsOfUrls(ws: seq<string>)
    requires UrlWords(ws)
    ensures Blank(StripUrls(Join(ws)))
    decreases |ws|
  {
    if |ws| == 1 {
      UrlDeleted(ws[0], "");
      assert ws[0] + "" == ws[0];
    } else if |ws| > 1 {
      var rest := Join(ws[1..]);
      var t := " " + rest;
      assert Join(ws) == ws[0] + t;
      UrlDeleted(ws[0], t);
      NotUrlAtSpace(t);
      StripUrlsKeep(t);
      assert t[1..] == rest;
      StripUrlsOfUrls(ws[1..]);
    }
  }

  /** Whitespace passes the mention, punctuation and lowering steps unchanged. */
  lemma BlankNormalised(u: UnicodeTable, s: string)
    requires Blank(StripUrls(s))
    ensures Normalised(u, s) == StripUrls(s)
  {
    var a := StripUrls(s);
    assert '@' !in a && '#' !in a;
    StripMentionsKeepsPlain(u, a);
    FilterKeepsAll(a, c => IsWord(u, c) || IsSpace(c));
  }

  /** Whitespace holds no token. */
  lemma {:induction false} SplitBlank(s: string)
    requires Blank(s)
    ensures Split(s) == []
    decreases |s|
  {
    if |s| > 0 {
      SplitSkip(s);
      SplitBlank(s[1..]);
    }
  }

  /** A text made only of URLs, separated by single spaces, cleans to the
      empty string, whatever the stopwords. */
  lemma UrlsOnlyCleanToEmpty(u: UnicodeTable, stop: set<string>, ws: seq<string>)
    requires UrlWords(ws)
    ensures CleanText(u, stop, Join(ws)) == ""
  {
    StripUrlsOfUrls(ws);
    BlankNormalised(u, Join(ws));
    SplitBlank(Normalised(u, Join(ws)));
  }
}
