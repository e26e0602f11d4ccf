/** Worked inputs for the cleaner: an example comment with a URL, a mention
    and a hashtag, the repository test's comment, and a
    short text that shows the cleaner is not idempotent. */
module CleaningExamples {
  import opened Chars
  import opened Seqs
  import opened Preprocessor

  lemma UpperCaseSchemeKept()
    ensures NoUrl("HTTPx")
  {
    var s := "HTTPx";
    forall i | 0 <= i <= |s|
      ensures !UrlAt(s[i..])
    {
      assert |s[i..]| == 0 || (s[i..][0] != 'h' && s[i..][0] != 'w');
    }
  }

  lemma UpperCaseSchemeLowered()
    ensures LowerText(AsciiTable(), "HTTPx") == "httpx"
  {
  }

  lemma UpperCaseSchemeNormalised()
    ensures Normalised(AsciiTable(), "HTTPx") == "httpx"
  {
    var u := AsciiTable();
    UpperCaseSchemeDeletesNothing();
    UpperCaseSchemeLowered();
  }

  lemma UpperCaseSchemeDeletesNothing()
    ensures StripPunct(AsciiTable(), StripMentions(AsciiTable(), StripUrls("HTTPx"))) == "HTTPx"
  {
    var u := AsciiTable();
    var s := "HTTPx";
    UpperCaseSchemeKept();
    StripUrlsKeepsClean(s);
    StripMentionsKeepsPlain(u, s);
    UpperCaseSchemeWords();
  }

  lemma UpperCaseSchemeWords()
    ensures StripPunct(AsciiTable(), "HTTPx") == "HTTPx"
  {
    var u := AsciiTable();
    FilterKeepsAll("HTTPx", c => IsWord(u, c) || IsSpace(c));
  }

  lemma OneToken()
    ensures Split("httpx") == ["httpx"]
  {
    var t := "httpx";
    NonSpaceRunOf(t, "");
    assert t + "" == t;
    assert Split(t) == [t] + Split(t[5..]);
  }

  lemma LowerCaseSchemeDeleted()
    ensures Normalised(AsciiTable(), "httpx") == ""
  {
    var t := "httpx";
    NonSpaceRunOf(t, "");
    assert t + "" == t;
    assert StripUrls(t) == StripUrls("");
  }

  /** The cleaner is not idempotent: the URL pattern is case-sensitive, so
      `HTTPx` survives the first pass as `httpx`, which a second pass deletes. */
  lemma CleanTextNotIdempotent()
    ensures CleanText(AsciiTable(), {}, "HTTPx") == "httpx"
    ensures CleanText(AsciiTable(), {}, CleanText(AsciiTable(), {}, "HTTPx")) == ""
  {
    UpperCaseSchemeNormalised();
    OneToken();
    FilterKeepsAll(["httpx"], t => t !in {});
    LowerCaseSchemeDeleted();
  }

  // ---------------------------------------------------------------------------
  // A worked example: a URL, a mention, a hashtag and two stopwords.
  // Each step is first proved for any text of the example's shape, then
  // instantiated; facts about single characters are stated on the literals.

  /** A URL between a URL-free head and a URL-free tail that starts with
      whitespace is deleted, and nothing else is. */
  lemma UrlStep(head: string, url: string, tail: string)
    requires UrlFree(head) && UrlFree(tail)
    requires UrlAt(url) && forall i :: 0 <= i < |url| ==> !IsSpace(url[i])
    requires |tail| == 0 || IsSpace(tail[0])
    ensures StripUrls(head + url + tail) == head + tail
  {
    assert head + url + tail == head + (url + tail);
    StripUrlsKeepsUrlFree(head, url + tail);
    UrlDeleted(url, tail);
    StripUrlsKeepsUrlFree(tail, "");
    assert tail + "" == tail;
  }

  /** Plain text, a mention, a gap, a hashtag and plain text: the mention
      goes, the hashtag loses its `#`. */
  lemma MentionStep(u: UnicodeTable, a: string, user: string, gap: string, tag: string, c: string)
    requires '@' !in a && '#' !in a && '@' !in gap && '#' !in gap && '@' !in c && '#' !in c
    requires |user| > 0 && forall i :: 0 <= i < |user| ==> IsWord(u, user[i])
    requires |gap| > 0 && !IsWord(u, gap[0])
    requires forall i :: 0 <= i < |tag| ==> IsWord(u, tag[i])
    ensures StripMentions(u, a + ("@" + user + (gap + ("#" + tag + c)))) == a + (gap + (tag + c))
  {
    var t := "#" + tag + c;
    StripMentionsKeepsPlainPrefix(u, a, "@" + user + (gap + t));
    MentionDeleted(u, user, gap + t);
    TagStep(u, gap, tag, c);
  }

  lemma TagStep(u: UnicodeTable, gap: string, tag: string, c: string)
    requires '@' !in gap && '#' !in gap && '@' !in c && '#' !in c
    requires forall i :: 0 <= i < |tag| ==> IsWord(u, tag[i])
    ensures StripMentions(u, gap + ("#" + tag + c)) == gap + (tag + c)
  {
    StripMentionsKeepsPlainPrefix(u, gap, "#" + tag + c);
    HashtagTextKept(u, tag, c);
    StripMentionsKeepsPlain(u, c);
  }

  /** A trailing `!` after word and whitespace characters is deleted. */
  lemma PunctStep(u: UnicodeTable, w: string)
    requires forall i :: 0 <= i < |w| ==> IsWord(u, w[i]) || IsSpace(w[i])
    ensures StripPunct(u, w + "!") == w
  {
    FilterConcat(w, "!", c => IsWord(u, c) || IsSpace(c));
    FilterKeepsAll(w, c => IsWord(u, c) || IsSpace(c));
    MarkDeleted(u);
  }

  lemma MarkDeleted(u: UnicodeTable)
    ensures StripPunct(u, "!") == ""
  {
  }

  /** Non-empty whitespace-free text: one token. */
  predicate Word(w: string) {
    |w| > 0 && forall i :: 0 <= i < |w| ==> !IsSpace(w[i])
  }

  lemma WordThen(w: string, t: string)
    requires Word(w)
    ensures Split(w + " " + t) == [w] + Split(t)
  {
    assert w + " " + t == w + [' '] + t;
    SplitAtSpace(w, ' ', t);
    OneWord(w);
  }

  /** Five words, with a double space after the second and the fourth, are
      five tokens. */
  lemma TokenStep(a: string, b: string, c: string, d: string, e: string)
    requires Word(a) && Word(b) && Word(c) && Word(d) && Word(e)
    ensures Split(a + " " + (b + " " + (" " + (c + " " + (d + " " + (" " + e)))))) == [a, b, c, d, e]
  {
    var t := c + " " + (d + " " + (" " + e));
    WordThen(a, b + " " + (" " + t));
    WordThen(b, " " + t);
    SpaceThen(t);
    TokenStepTail(c, d, e);
  }

  lemma TokenStepTail(c: string, d: string, e: string)
    requires Word(c) && Word(d) && Word(e)
    ensures Split(c + " " + (d + " " + (" " + e))) == [c, d, e]
  {
    WordThen(c, d + " " + (" " + e));
    WordThen(d, " " + e);
    SpaceThen(e);
    OneWord(e);
  }

  lemma SpaceThen(t: string)
    ensures Split(" " + t) == Split(t)
  {
    SplitSpace(' ', t);
    assert " " + t == [' '] + t;
  }

  lemma KeepTwo(stop: set<string>, d: string, e: string)
    requires d !in stop && e !in stop
    ensures FilterStop([d, e], stop) == [d, e]
  {
    FilterStopCons(e, [], stop);
    assert [e] + [] == [e];
    FilterStopCons(d, [e], stop);
    assert [d] + [e] == [d, e];
  }

  lemma DropTwo(stop: set<string>, b: string, c: string, xs: seq<string>)
    requires b in stop && c in stop
    ensures FilterStop([b] + ([c] + xs), stop) == FilterStop(xs, stop)
  {
    FilterStopCons(c, xs, stop);
    FilterStopCons(b, [c] + xs, stop);
  }

  lemma FiveCells<T>(a: T, b: T, c: T, d: T, e: T)
    ensures [a] + ([b] + ([c] + [d, e])) == [a, b, c, d, e]
    ensures [a] + [d, e] == [a, d, e]
  {
  }

  /** The second and third of five tokens are stopwords, the others not. */
  lemma StopwordStep(stop: set<string>, a: string, b: string, c: string, d: string, e: string)
    requires b in stop && c in stop && a !in stop && d !in stop && e !in stop
    ensures FilterStop([a, b, c, d, e], stop) == [a, d, e]
  {
    KeepTwo(stop, d, e);
    DropTwo(stop, b, c, [d, e]);
    FilterStopCons(a, [b] + ([c] + [d, e]), stop);
    FiveCells(a, b, c, d, e);
  }

  lemma JoinThree(a: string, b: string, c: string)
    ensures Join([a, b, c]) == a + " " + b + " " + c
  {
    assert [a, b, c][1..] == [b, c] && [b, c][1..] == [c];
    assert Join([b, c]) == b + " " + c;
    assert a + " " + (b + " " + c) == a + " " + b + " " + c;
  }

  lemma ExampleUrlParts()
    ensures UrlFree("Check out ") && UrlFree(" and follow @user #Awesome!")
    ensures UrlAt("https://example.com")
    ensures forall i :: 0 <= i < |"https://example.com"| ==> !IsSpace("https://example.com"[i])
  {
    ExampleHeadUrlFree();
    ExampleTailUrlFree();
  }

  lemma ExampleHeadUrlFree()
    ensures UrlFree("Check out ")
  {
  }

  lemma ExampleTailUrlFree()
    ensures UrlFree(" and follow @user #Awesome!")
  {
    ExampleTailHalves();
    UrlFreeConcat(" and follow ", "@user #Awesome!");
    assert " and follow " + "@user #Awesome!" == " and follow @user #Awesome!";
  }

  lemma ExampleTailHalves()
    ensures UrlFree(" and follow ") && UrlFree("@user #Awesome!")
  {
  }

  lemma ExampleMentionParts(u: UnicodeTable)
    ensures " and follow @user #Awesome!" == " and follow " + ("@" + "user" + (" " + ("#" + "Awesome" + "!")))
    ensures forall i :: 0 <= i < |"user"| ==> IsWord(u, "user"[i])
    ensures forall i :: 0 <= i < |"Awesome"| ==> IsWord(u, "Awesome"[i])
    ensures !IsWord(u, ' ')
  {
  }

  lemma ExampleText(u: UnicodeTable)
    ensures var w := "Check out " + " and follow " + " " + "Awesome";
      && (forall i :: 0 <= i < |w| ==> IsWord(u, w[i]) || IsSpace(w[i]))
      && LowerText(u, w) == "check out  and follow  awesome"
  {
    ExampleTextChars(u);
    ExampleTextLowered(u);
  }

  lemma ExampleTextChars(u: UnicodeTable)
    ensures var w := "Check out " + " and follow " + " " + "Awesome";
      forall i :: 0 <= i < |w| ==> IsWord(u, w[i]) || IsSpace(w[i])
  {
  }

  lemma ExampleTextLowered(u: UnicodeTable)
    ensures LowerText(u, "Check out " + " and follow " + " " + "Awesome") == "check out  and follow  awesome"
  {
  }

  lemma ExampleWords()
    ensures Word("check") && Word("out") && Word("and") && Word("follow") && Word("awesome")
  {
  }

  lemma ExampleUrls(s: string)
    requires s == "Check out " + "https://example.com" + " and follow @user #Awesome!"
    ensures StripUrls(s) == "Check out " + " and follow @user #Awesome!"
  {
    ExampleUrlParts();
    UrlStep("Check out ", "https://example.com", " and follow @user #Awesome!");
  }

  lemma ExampleMentions(u: UnicodeTable, s: string)
    requires s == "Check out " + " and follow @user #Awesome!"
    ensures StripMentions(u, s) == ("Check out " + " and follow ") + (" " + ("Awesome" + "!"))
  {
    ExampleMentionParts(u);
    assert s == ("Check out " + " and follow ") + ("@" + "user" + (" " + ("#" + "Awesome" + "!")));
    MentionStep(u, "Check out " + " and follow ", "user", " ", "Awesome", "!");
  }

  lemma ExamplePunctLower(u: UnicodeTable, s: string)
    requires s == ("Check out " + " and follow ") + (" " + ("Awesome" + "!"))
    ensures LowerText(u, StripPunct(u, s)) == "check out  and follow  awesome"
  {
    var w := "Check out " + " and follow " + " " + "Awesome";
    assert s == w + "!";
    ExampleText(u);
    PunctStep(u, w);
  }

  lemma ExampleNormalised(u: UnicodeTable, s: string)
    requires s == "Check out " + "https://example.com" + " and follow @user #Awesome!"
    ensures Normalised(u, s) == "check out  and follow  awesome"
  {
    ExampleUrls(s);
    ExampleMentions(u, StripUrls(s));
    ExamplePunctLower(u, StripMentions(u, StripUrls(s)));
  }

  lemma ExampleTokenised(stop: set<string>, n: string)
    requires n == "check out  and follow  awesome"
    requires "out" in stop && "and" in stop
    requires "check" !in stop && "follow" !in stop && "awesome" !in stop
    ensures FilterStop(Split(n), stop) == ["check", "follow", "awesome"]
  {
    ExampleWords();
    assert n == "check" + " " + ("out" + " " + (" " + ("and" + " " + ("follow" + " " + (" " + "awesome")))));
    TokenStep("check", "out", "and", "follow", "awesome");
    StopwordStep(stop, "check", "out", "and", "follow", "awesome");
  }

  lemma ExampleJoined(ts: seq<string>)
    requires ts == ["check", "follow", "awesome"]
    ensures Join(ts) == "check follow awesome"
  {
    JoinThree("check", "follow", "awesome");
  }

  /** With any stopword list that holds `out` and `and` but none of the
      other words (the English list is such a list), the example comment
      cleans to `check follow awesome`. */
  lemma ExampleCleaned(u: UnicodeTable, stop: set<string>, s: string)
    requires s == "Check out " + "https://example.com" + " and follow @user #Awesome!"
    requires "out" in stop && "and" in stop
    requires "check" !in stop && "follow" !in stop && "awesome" !in stop
    ensures CleanText(u, stop, s) == "check follow awesome"
  {
    ExampleNormalised(u, s);
    ExampleTokenised(stop, Normalised(u, s));
    ExampleJoined(FilterStop(Split(Normalised(u, s)), stop));
  }

  // ---------------------------------------------------------------------------
  // The repository's own test comment: the worked example after a
  // sentence `This is a test!` and without the final `!`. The steps reuse
  // the lemmas above; only the new literals get facts of their own.
  lemma TestHeadUrlFree()
    ensures UrlFree("This is a test! ")
  {
  }

  lemma TestTailHalves()
    ensures UrlFree(" and follow ") && UrlFree("@user #Awesome")
  {
  }

  lemma TestUrlParts()
    ensures UrlFree("This is a test! " + "Check out ")
    ensures UrlFree(" and follow @user #Awesome")
  {
    TestHeadUrlFree();
    ExampleHeadUrlFree();
    UrlFreeConcat("This is a test! ", "Check out ");
    TestTailHalves();
    UrlFreeConcat(" and follow ", "@user #Awesome");
    assert " and follow " + "@user #Awesome" == " and follow @user #Awesome";
  }

  lemma TestUrls(s: string)
    requires s == "This is a test! " + "Check out " + "https://example.com" + " and follow @user #Awesome"
    ensures StripUrls(s) == ("This is a test! " + "Check out ") + " and follow @user #Awesome"
  {
    TestUrlParts();
    ExampleUrlParts();
    assert s == ("This is a test! " + "Check out ") + "https://example.com" + " and follow @user #Awesome";
    UrlStep("This is a test! " + "Check out ", "https://example.com", " and follow @user #Awesome");
  }

  lemma TestPlain()
    ensures '@' !in "This is a test! " + "Check out " + " and follow "
    ensures '#' !in "This is a test! " + "Check out " + " and follow "
  {
  }

  lemma TestMentions(u: UnicodeTable, s: string)
    requires s == ("This is a test! " + "Check out ") + " and follow @user #Awesome"
    ensures StripMentions(u, s) == ("This is a test! " + "Check out " + " and follow ") + (" " + ("Awesome" + ""))
  {
    ExampleMentionParts(u);
    TestPlain();
    assert s == ("This is a test! " + "Check out " + " and follow ") + ("@" + "user" + (" " + ("#" + "Awesome" + "")));
    MentionStep(u, "This is a test! " + "Check out " + " and follow ", "user", " ", "Awesome", "");
  }

  /** A `!` between two word-and-whitespace texts is deleted. */
  lemma PunctInside(u: UnicodeTable, x: string, y: string)
    requires forall i :: 0 <= i < |x| ==> IsWord(u, x[i]) || IsSpace(x[i])
    requires forall i :: 0 <= i < |y| ==> IsWord(u, y[i]) || IsSpace(y[i])
    ensures StripPunct(u, x + "!" + y) == x + y
  {
    FilterConcat(x + "!", y, c => IsWord(u, c) || IsSpace(c));
    PunctStep(u, x);
    FilterKeepsAll(y, c => IsWord(u, c) || IsSpace(c));
  }

  /** Lowering works character by character. */
  lemma LowerTextConcat(u: UnicodeTable, a: string, b: string)
    ensures LowerText(u, a + b) == LowerText(u, a) + LowerText(u, b)
  {
  }

  lemma TestSentence(u: UnicodeTable)
    ensures forall i :: 0 <= i < |"This is a test"| ==> IsWord(u, "This is a test"[i]) || IsSpace("This is a test"[i])
    ensures LowerText(u, "This is a test") == "this is a test"
    ensures LowerText(u, " ") == " "
  {
  }

  lemma SpaceThenText(u: UnicodeTable, w: string)
    requires forall i :: 0 <= i < |w| ==> IsWord(u, w[i]) || IsSpace(w[i])
    ensures forall i :: 0 <= i < |" " + w| ==> IsWord(u, (" " + w)[i]) || IsSpace((" " + w)[i])
  {
    assert forall i :: 1 <= i < |" " + w| ==> (" " + w)[i] == w[i - 1];
  }

  lemma TestPunct(u: UnicodeTable, s: string, w: string)
    requires forall i :: 0 <= i < |w| ==> IsWord(u, w[i]) || IsSpace(w[i])
    requires s == "This is a test" + "!" + (" " + w)
    ensures StripPunct(u, s) == "This is a test" + (" " + w)
  {
    TestSentence(u);
    SpaceThenText(u, w);
    PunctInside(u, "This is a test", " " + w);
  }

  lemma TestLower(u: UnicodeTable, w: string)
    requires LowerText(u, w) == "check out  and follow  awesome"
    ensures LowerText(u, "This is a test" + (" " + w)) == "this is a test" + " " + "check out  and follow  awesome"
  {
    TestSentence(u);
    LowerTextConcat(u, "This is a test", " " + w);
    LowerTextConcat(u, " ", w);
  }

  lemma TestPunctLower(u: UnicodeTable, s: string)
    requires s == ("This is a test! " + "Check out " + " and follow ") + (" " + ("Awesome" + ""))
    ensures LowerText(u, StripPunct(u, s)) == "this is a test" + " " + "check out  and follow  awesome"
  {
    var w := "Check out " + " and follow " + " " + "Awesome";
    assert s == "This is a test" + "!" + (" " + w);
    ExampleText(u);
    TestPunct(u, s, w);
    TestLower(u, w);
  }

  lemma TestNormalised(u: UnicodeTable, s: string)
    requires s == "This is a test! " + "Check out " + "https://example.com" + " and follow @user #Awesome"
    ensures Normalised(u, s) == "this is a test" + " " + "check out  and follow  awesome"
  {
    TestUrls(s);
    TestMentions(u, StripUrls(s));
    TestPunctLower(u, StripMentions(u, StripUrls(s)));
  }

  lemma WordsSplit(a: string, b: string)
    requires Word(a) && Word(b)
    ensures Split(a + " " + b) == [a, b]
  {
    WordThen(a, b);
    OneWord(b);
  }

  /** Two words, a space and two words are four tokens. */
  lemma TwoPairs(p: string, a: string, b: string, c: string, d: string)
    requires Word(a) && Word(b) && Word(c) && Word(d)
    requires p == (a + " " + b) + " " + (c + " " + d)
    ensures Split(p) == [a, b, c, d]
  {
    assert p == (a + " " + b) + [' '] + (c + " " + d);
    SplitAtSpace(a + " " + b, ' ', c + " " + d);
    WordsSplit(a, b);
    WordsSplit(c, d);
    assert [a, b] + [c, d] == [a, b, c, d];
  }

  lemma TestSentenceWords()
    ensures Word("this") && Word("is") && Word("a") && Word("test")
    ensures "this is a test" == ("this" + " " + "is") + " " + ("a" + " " + "test")
  {
  }

  lemma TestSplit(n0: string)
    ensures Split("this is a test" + " " + n0) == ["this", "is", "a", "test"] + Split(n0)
  {
    assert "this is a test" + " " + n0 == "this is a test" + [' '] + n0;
    SplitAtSpace("this is a test", ' ', n0);
    TestSentenceWords();
    TwoPairs("this is a test", "this", "is", "a", "test");
  }

  lemma ConsFour<T>(a: T, b: T, c: T, d: T, rest: seq<T>)
    ensures [a, b, c, d] + rest == [a] + ([b] + ([c] + ([d] + rest)))
  {
  }

  lemma DropOneKeepOne(stop: set<string>, c: string, d: string, rest: seq<string>)
    requires c in stop && d !in stop
    ensures FilterStop([c] + ([d] + rest), stop) == [d] + FilterStop(rest, stop)
  {
    FilterStopCons(c, [d] + rest, stop);
    FilterStopCons(d, rest, stop);
  }

  /** Three stopwords and a kept word, before any tokens. */
  lemma DropThreeKeepOne(stop: set<string>, a: string, b: string, c: string, d: string, rest: seq<string>)
    requires a in stop && b in stop && c in stop && d !in stop
    ensures FilterStop([a, b, c, d] + rest, stop) == [d] + FilterStop(rest, stop)
  {
    ConsFour(a, b, c, d, rest);
    DropTwo(stop, a, b, [c] + ([d] + rest));
    DropOneKeepOne(stop, c, d, rest);
  }

  lemma TestSentenceDropped(stop: set<string>, n0: string)
    requires "this" in stop && "is" in stop && "a" in stop && "test" !in stop
    ensures FilterStop(Split("this is a test" + " " + n0), stop) == ["test"] + FilterStop(Split(n0), stop)
  {
    TestSplit(n0);
    DropThreeKeepOne(stop, "this", "is", "a", "test", Split(n0));
  }

  lemma FourCells<T>(a: T, b: T, c: T, d: T)
    ensures [a] + [b, c, d] == [a, b, c, d]
  {
  }

  lemma TestTokenised(stop: set<string>, n: string)
    requires n == "this is a test" + " " + "check out  and follow  awesome"
    requires "this" in stop && "is" in stop && "a" in stop && "out" in stop && "and" in stop
    requires "test" !in stop && "check" !in stop && "follow" !in stop && "awesome" !in stop
    ensures FilterStop(Split(n), stop) == ["test", "check", "follow", "awesome"]
  {
    var n0 := "check out  and follow  awesome";
    TestSentenceDropped(stop, n0);
    ExampleTokenised(stop, n0);
    FourCells("test", "check", "follow", "awesome");
  }
  lemma TestJoined(ts: seq<string>)
    requires ts == ["test", "check", "follow", "awesome"]
    ensures Join(ts) == "test check follow awesome"
  {
    assert ts[1..] == ["check", "follow", "awesome"];
    JoinThree("check", "follow", "awesome");
  }

  /** The comment of the repository's preprocessing test cleans to
      `test check follow awesome`, not to the `check follow awesome` the test
      expects: `test` is on no English stopword list, and nothing else in the
      cleaner removes it. */
  lemma TestCommentCleaned(u: UnicodeTable, stop: set<string>, s: string)
    requires s == "This is a test! " + "Check out " + "https://example.com" + " and follow @user #Awesome"
    requires "this" in stop && "is" in stop && "a" in stop && "out" in stop && "and" in stop
    requires "test" !in stop && "check" !in stop && "follow" !in stop && "awesome" !in stop
    ensures CleanText(u, stop, s) == "test check follow awesome"
    ensures CleanText(u, stop, s) != "check follow awesome"
  {
    TestNormalised(u, s);
    TestTokenised(stop, Normalised(u, s));
    TestJoined(FilterStop(Split(Normalised(u, s)), stop));
  }
}
