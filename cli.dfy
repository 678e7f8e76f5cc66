/**
 * The interactive part of the command line (main.go): reading a yes/no
 * answer, and deciding which export prompts are asked.
 */
module Cli {
  import opened Wrappers
  import opened Metrics

  /** White space as Go's unicode.IsSpace sees it. */
  predicate IsSpace(c: char)
  {
    var n := c as int;
    (9 <= n <= 13) || n == 32 || n == 0x85 || n == 0xA0 || n == 0x1680 || (0x2000 <= n <= 0x200A)
    || n == 0x2028 || n == 0x2029 || n == 0x202F || n == 0x205F || n == 0x3000
  }

  /** Lower-cases an ASCII upper-case letter; every other character is kept. */
  function LowerChar(c: char): char
  {
    if 'A' <= c <= 'Z' then (c as int - 'A' as int + 'a' as int) as char else c
  }

  /**
   * Lower-cases ASCII letters: each upper-case letter becomes its
   * lower-case letter and every other character is kept, so no upper-case
   * letter is left and white space stays where it was.
   */
  function ToLower(s: string): (r: string)
    ensures |r| == |s|
    ensures forall k :: 0 <= k < |s| && 'A' <= s[k] <= 'Z' ==> r[k] as int == s[k] as int + 32
    ensures forall k :: 0 <= k < |s| && !('A' <= s[k] <= 'Z') ==> r[k] == s[k]
    ensures forall k :: 0 <= k < |r| ==> !('A' <= r[k] <= 'Z')
    ensures forall k :: 0 <= k < |r| ==> (IsSpace(r[k]) <==> IsSpace(s[k]))
  {
    seq(|s|, k requires 0 <= k < |s| => LowerChar(s[k]))
  }

  /** Drops leading white space. */
  function TrimLeft(s: string): string
    decreases |s|
  {
    if s != [] && IsSpace(s[0]) then TrimLeft(s[1..]) else s
  }

  /** Drops trailing white space. */
  function TrimRight(s: string): string
    decreases |s|
  {
    if s != [] && IsSpace(s[|s| - 1]) then TrimRight(s[..|s| - 1]) else s
  }

  function TrimSpace(s: string): string
  {
    TrimRight(TrimLeft(s))
  }

  predicate AllSpace(s: string)
  {
    forall k :: 0 <= k < |s| ==> IsSpace(s[k])
  }

  /**
   * TrimSpace cuts the input into white space, a middle part and white
   * space, where the middle part neither starts nor ends with white space.
   */
  lemma TrimSpaceSplits(s: string)
    ensures exists a, b :: 0 <= a <= b <= |s| && TrimSpace(s) == s[a..b] && AllSpace(s[..a]) && AllSpace(s[b..])
    ensures TrimSpace(s) != [] ==> !IsSpace(TrimSpace(s)[0]) && !IsSpace(TrimSpace(s)[|TrimSpace(s)| - 1])
  {
    var a := TrimLeftSplits(s);
    var b := TrimRightSplits(s[a..]);
    assert s[a..][..b] == s[a..a + b];
    assert s[a..][b..] == s[a + b..];
  }

  lemma {:induction false} TrimLeftSplits(s: string) returns (a: nat)
    ensures a <= |s| && TrimLeft(s) == s[a..] && AllSpace(s[..a])
    ensures TrimLeft(s) != [] ==> !IsSpace(TrimLeft(s)[0])
    decreases |s|
  {
    if s != [] && IsSpace(s[0]) {
      var a' := TrimLeftSplits(s[1..]);
      a := a' + 1;
      assert s[1..][a'..] == s[a..];
      assert s[..a] == [s[0]] + s[1..][..a'];
    } else {
      a := 0;
    }
  }

  lemma {:induction false} TrimRightSplits(s: string) returns (b: nat)
    ensures b <= |s| && TrimRight(s) == s[..b] && AllSpace(s[b..])
    ensures TrimRight(s) != [] ==> !IsSpace(TrimRight(s)[|TrimRight(s)| - 1])
    decreases |s|
  {
    if s != [] && IsSpace(s[|s| - 1]) {
      b := TrimRightSplits(s[..|s| - 1]);
      assert s[..|s| - 1][..b] == s[..b];
      assert s[b..] == s[..|s| - 1][b..] + [s[|s| - 1]];
    } else {
      b := |s|;
    }
  }

  /**
   * The normalised answer: lower-cased, then trimmed. It is a slice of
   * the lower-cased input, holds no upper-case letter, and neither starts
   * nor ends with white space.
   */
  function Normalize(input: string): (r: string)
    ensures |r| <= |input|
    ensures forall k :: 0 <= k < |r| ==> !('A' <= r[k] <= 'Z')
    ensures r != [] ==> !IsSpace(r[0]) && !IsSpace(r[|r| - 1])
  {
    TrimSpaceSplits(ToLower(input));
    TrimSpace(ToLower(input))
  }

  /**
   * `input` is `word` up to letter case, with white space (possibly none)
   * around it.
   */
  ghost predicate Padded(input: string, word: string)
  {
    exists a, b :: 0 <= a <= b <= |input| && AllSpace(input[..a]) && AllSpace(input[b..]) && ToLower(input[a..b]) == word
  }

  /** A lower-cased slice is the slice of the lower-cased string. */
  lemma ToLowerSlice(s: string, a: int, b: int)
    requires 0 <= a <= b <= |s|
    ensures ToLower(s)[a..b] == ToLower(s[a..b])
  {
  }

  /** White space around a slice of the lower-cased input is white space in the input too. */
  lemma ToLowerSpaceAround(input: string, a: int, b: int)
    requires 0 <= a <= b <= |input|
    requires AllSpace(ToLower(input)[..a]) && AllSpace(ToLower(input)[b..])
    ensures AllSpace(input[..a]) && AllSpace(input[b..])
  {
    var lower := ToLower(input);
    forall k | 0 <= k < a
      ensures IsSpace(input[..a][k])
    {
      assert lower[..a][k] == lower[k];
    }
    forall k | 0 <= k < |input| - b
      ensures IsSpace(input[b..][k])
    {
      assert lower[b..][k] == lower[b + k];
    }
  }

  /** An input that normalises to a word is that word padded. */
  lemma NormalizedIsPadded(input: string, word: string)
    requires Normalize(input) == word
    ensures Padded(input, word)
  {
    var lower := ToLower(input);
    TrimSpaceSplits(lower);
    var a, b :| 0 <= a <= b <= |lower| && TrimSpace(lower) == lower[a..b] && AllSpace(lower[..a]) && AllSpace(lower[b..]);
    ToLowerSpaceAround(input, a, b);
    ToLowerSlice(input, a, b);
  }

  /** A padded word normalises to the word, when the word itself is not padded. */
  lemma PaddedNormalizes(input: string, word: string)
    requires word != [] && !IsSpace(word[0]) && !IsSpace(word[|word| - 1])
    requires Padded(input, word)
    ensures Normalize(input) == word
  {
    var a, b := PaddingOf(input, word);
    PaddingNormalizes(input, a, b, word);
  }

  /** Where the white space ends and starts again in a padded word. */
  lemma PaddingOf(input: string, word: string) returns (a: int, b: int)
    requires Padded(input, word)
    ensures 0 <= a <= b <= |input| && AllSpace(input[..a]) && AllSpace(input[b..]) && ToLower(input[a..b]) == word
  {
    a, b :| 0 <= a <= b <= |input| && AllSpace(input[..a]) && AllSpace(input[b..]) && ToLower(input[a..b]) == word;
  }

  /** A word padded at given positions normalises to the word. */
  lemma PaddingNormalizes(input: string, a: int, b: int, word: string)
    requires word != [] && !IsSpace(word[0]) && !IsSpace(word[|word| - 1])
    requires 0 <= a <= b <= |input| && AllSpace(input[..a]) && AllSpace(input[b..]) && ToLower(input[a..b]) == word
    ensures Normalize(input) == word
  {
    var pre, mid, post := input[..a], input[a..b], input[b..];
    assert input == pre + mid + post;
    NormalizeIgnoresPadding(pre, mid, post);
    TrimSpaceUnpadded(word);
  }

  /**
   * The normalised answer is a given word, one that does not start or
   * end with white space, exactly when the input is that word padded.
   */
  lemma NormalizeIs(input: string, word: string)
    requires word != [] && !IsSpace(word[0]) && !IsSpace(word[|word| - 1])
    ensures Normalize(input) == word <==> Padded(input, word)
  {
    if Normalize(input) == word {
      NormalizedIsPadded(input, word);
    }
    if Padded(input, word) {
      PaddedNormalizes(input, word);
    }
  }

  /**
   * main.go, promptBool, after reading the line: "y"/"yes" is true,
   * "n"/"no" is false, anything else is fatal (None).
   */
  function PromptBool(input: string): (r: Option<bool>)
    ensures r == Some(true) <==> Padded(input, "y") || Padded(input, "yes")
    ensures r == Some(false) <==> Padded(input, "n") || Padded(input, "no")
    ensures r == None <==> !Padded(input, "y") && !Padded(input, "yes") && !Padded(input, "n") && !Padded(input, "no")
  {
    NormalizeIs(input, "y");
    NormalizeIs(input, "yes");
    NormalizeIs(input, "n");
    NormalizeIs(input, "no");
    var answer := Normalize(input);
    if answer == "y" || answer == "yes" then Some(true)
    else if answer == "n" || answer == "no" then Some(false)
    else None
  }

  lemma {:induction false} TrimLeftSpacePrefix(pre: string, s: string)
    requires AllSpace(pre)
    ensures TrimLeft(pre + s) == TrimLeft(s)
    decreases |pre|
  {
    if pre != [] {
      assert (pre + s)[1..] == pre[1..] + s;
      TrimLeftSpacePrefix(pre[1..], s);
    } else {
      assert pre + s == s;
    }
  }

  lemma {:induction false} TrimRightSpaceSuffix(s: string, post: string)
    requires AllSpace(post)
    ensures TrimRight(s + post) == TrimRight(s)
    decreases |post|
  {
    if post != [] {
      var n := |post| - 1;
      assert (s + post)[..|s + post| - 1] == s + post[..n];
      TrimRightSpaceSuffix(s, post[..n]);
    } else {
      assert s + post == s;
    }
  }

  lemma TrimLeftKeepsSuffix(s: string, post: string)
    requires AllSpace(post)
    ensures (exists mid :: TrimLeft(s + post) == mid + post && TrimLeft(s) == mid)
            || (TrimLeft(s + post) == [] && TrimLeft(s) == [])
  {
    var a := TrimLeftSplits(s);
    if a < |s| {
      TrimLeftFrom(s, post, a);
    } else {
      assert s[..a] == s;
      assert AllSpace(s + post);
      TrimLeftAllSpace(s + post);
      TrimLeftAllSpace(s);
    }
  }

  lemma {:induction false} TrimLeftAllSpace(s: string)
    requires AllSpace(s)
    ensures TrimLeft(s) == []
    decreases |s|
  {
    if s != [] {
      TrimLeftAllSpace(s[1..]);
    }
  }

  lemma {:induction false} TrimLeftFrom(s: string, post: string, a: nat)
    requires a < |s| && AllSpace(s[..a]) && !IsSpace(s[a])
    ensures TrimLeft(s + post) == s[a..] + post && TrimLeft(s) == s[a..]
    decreases a
  {
    if a > 0 {
      assert s[1..][..a - 1] == s[..a][1..];
      assert (s + post)[1..] == s[1..] + post;
      TrimLeftFrom(s[1..], post, a - 1);
      assert s[1..][a - 1..] == s[a..];
    } else {
      assert s != [] && !IsSpace(s[0]);
    }
  }

  /** Padding the answer with white space (the line's newline included) changes nothing. */
  lemma TrimSpacePadding(pre: string, s: string, post: string)
    requires AllSpace(pre) && AllSpace(post)
    ensures TrimSpace(pre + s + post) == TrimSpace(s)
  {
    assert pre + s + post == pre + (s + post);
    TrimLeftSpacePrefix(pre, s + post);
    TrimLeftKeepsSuffix(s, post);
    if !(TrimLeft(s + post) == [] && TrimLeft(s) == []) {
      var mid :| TrimLeft(s + post) == mid + post && TrimLeft(s) == mid;
      TrimRightSpaceSuffix(mid, post);
    }
  }

  lemma ToLowerConcat(a: string, b: string)
    ensures ToLower(a + b) == ToLower(a) + ToLower(b)
  {
  }

  lemma ToLowerKeepsSpace(s: string)
    requires AllSpace(s)
    ensures AllSpace(ToLower(s))
  {
  }

  /** promptBool ignores white space around the answer, including the newline that ends the line. */
  lemma PromptBoolIgnoresPadding(pre: string, input: string, post: string)
    requires AllSpace(pre) && AllSpace(post)
    ensures PromptBool(pre + input + post) == PromptBool(input)
  {
    NormalizeIgnoresPadding(pre, input, post);
  }

  lemma NormalizeIgnoresPadding(pre: string, input: string, post: string)
    requires AllSpace(pre) && AllSpace(post)
    ensures Normalize(pre + input + post) == Normalize(input)
  {
    ToLowerConcat(pre + input, post);
    ToLowerConcat(pre, input);
    ToLowerKeepsSpace(pre);
    ToLowerKeepsSpace(post);
    TrimSpacePadding(ToLower(pre), ToLower(input), ToLower(post));
  }

  /** promptBool ignores letter case: inputs equal up to ASCII case get the same answer. */
  lemma PromptBoolIgnoresCase(a: string, b: string)
    requires |a| == |b| && forall k :: 0 <= k < |a| ==> LowerChar(a[k]) == LowerChar(b[k])
    ensures PromptBool(a) == PromptBool(b)
  {
    assert ToLower(a) == ToLower(b);
  }

  /** An answer that neither starts nor ends with white space is not trimmed. */
  lemma TrimSpaceUnpadded(s: string)
    requires s != [] && !IsSpace(s[0]) && !IsSpace(s[|s| - 1])
    ensures TrimSpace(s) == s
  {
  }

  /** Answers as a user would type them, newline included. */
  lemma PromptBoolYes()
    ensures PromptBool("Yes\n") == Some(true)
  {
    NormalizeIgnoresPadding("", "Yes", "\n");
    assert "" + "Yes" + "\n" == "Yes\n";
    assert ToLower("Yes") == "yes";
    TrimSpaceUnpadded("yes");
    assert Normalize("Yes\n") == "yes";
  }

  lemma PromptBoolNo()
    ensures PromptBool(" NO\n") == Some(false)
  {
    NormalizeIgnoresPadding(" ", "NO", "\n");
    assert " " + "NO" + "\n" == " NO\n";
    assert ToLower("NO") == "no";
    TrimSpaceUnpadded("no");
    assert Normalize(" NO\n") == "no";
  }

  /** An empty line is invalid. */
  lemma PromptBoolRejectsEmpty()
    ensures PromptBool("\n") == None
  {
    NormalizeIgnoresPadding("", "", "\n");
    assert "" + "" + "\n" == "\n";
    assert Normalize("\n") == [];
  }

  /** A near miss such as "yess" is invalid. */
  lemma PromptBoolRejectsNearMiss()
    ensures PromptBool("yess\n") == None
  {
    NormalizeIgnoresPadding("", "yess", "\n");
    assert "" + "yess" + "\n" == "yess\n";
    assert ToLower("yess") == "yess";
    TrimSpaceUnpadded("yess");
    assert Normalize("yess\n") == "yess";
  }

  datatype Prompt = UsersPrompt | PostsPrompt | EditsPrompt

  /**
   * The parsed command line: each `--export.*` flag's value and whether it
   * was given at all (the flag's pre-action ran).
   */
  datatype Flags = Flags(
    exportType: string,
    category: string,
    topic: int,
    exportPosts: bool, exportPostsSet: bool,
    exportEdits: bool, exportEditsSet: bool,
    exportUsers: bool, exportUsersSet: bool)

  /** The line the user would type at each prompt. */
  datatype Answers = Answers(users: string, posts: string, edits: string)

  function AnswerTo(answers: Answers, p: Prompt): string
  {
    match p
    case UsersPrompt => answers.users
    case PostsPrompt => answers.posts
    case EditsPrompt => answers.edits
  }

  /** Whether main asks prompt `p` for these flags. */
  predicate Asks(flags: Flags, p: Prompt)
  {
    match p
    case UsersPrompt => !flags.exportUsersSet && (flags.exportType == "csv" || flags.exportType == "json")
    case PostsPrompt => !flags.exportPostsSet
    case EditsPrompt => !flags.exportEditsSet
  }

  function Rank(p: Prompt): int
  {
    match p
    case UsersPrompt => 0
    case PostsPrompt => 1
    case EditsPrompt => 2
  }

  /** What PromptBool made of the line typed at each prompt. */
  datatype Replies = Replies(users: Option<bool>, posts: Option<bool>, edits: Option<bool>)

  function ReplyTo(replies: Replies, p: Prompt): Option<bool>
  {
    match p
    case UsersPrompt => replies.users
    case PostsPrompt => replies.posts
    case EditsPrompt => replies.edits
  }

  function Parse(answers: Answers): (replies: Replies)
    ensures forall p :: ReplyTo(replies, p) == PromptBool(AnswerTo(answers, p))
  {
    Replies(PromptBool(answers.users), PromptBool(answers.posts), PromptBool(answers.edits))
  }

  /**
   * The state main carries through its prompts: whether it stopped with
   * log.Fatal, the prompts shown, and the three export choices.
   */
  datatype Gated = Gated(fatal: bool, asked: seq<Prompt>, users: bool, posts: bool, edits: bool)

  /** One prompt block of main: shown when nothing has stopped and its condition holds. */
  function Ask(g: Gated, flags: Flags, replies: Replies, p: Prompt): Gated
  {
    if g.fatal || !Asks(flags, p) then g
    else
      var reply := ReplyTo(replies, p);
      var shown := g.(fatal := reply.None?, asked := g.asked + [p]);
      if reply.None? then shown
      else match p
        case UsersPrompt => shown.(users := reply.value)
        case PostsPrompt => shown.(posts := reply.value)
        case EditsPrompt => shown.(edits := reply.value)
  }

  /** The state after the three prompt blocks of main, in order. */
  function Gate(flags: Flags, exporterInit: Outcome<Error>, replies: Replies): Gated
  {
    var start := Gated(exporterInit.Fail?, [], flags.exportUsers, flags.exportPosts, flags.exportEdits);
    Ask(Ask(Ask(start, flags, replies, UsersPrompt), flags, replies, PostsPrompt), flags, replies, EditsPrompt)
  }

  /*
   * What holds after the first `n` prompt blocks; each step lemma shows one
   * block keeps it, and the Gate lemmas chain the three blocks.
   */

  /** The prompts shown so far come in main's order and were all due. */
  predicate OrderedSoFar(g: Gated, flags: Flags, n: int)
  {
    && (forall i, j :: 0 <= i < j < |g.asked| ==> Rank(g.asked[i]) < Rank(g.asked[j]))
    && (forall q :: q in g.asked ==> Asks(flags, q) && Rank(q) < n)
  }

  /** Only the last prompt shown can have an invalid reply, and it has one exactly when main stopped after it. */
  predicate StopsSoFar(g: Gated, exporterInit: Outcome<Error>, replies: Replies)
  {
    && (exporterInit.Fail? ==> g.fatal && g.asked == [])
    && (forall i :: 0 <= i < |g.asked| - 1 ==> ReplyTo(replies, g.asked[i]).Some?)
    && (g.fatal && exporterInit.Pass? ==> g.asked != [] && ReplyTo(replies, g.asked[|g.asked| - 1]).None?)
    && (!g.fatal && g.asked != [] ==> ReplyTo(replies, g.asked[|g.asked| - 1]).Some?)
  }

  /** Main has stopped exactly when initialisation failed or a due prompt among the first `n` got an invalid reply. */
  predicate FatalSoFar(g: Gated, flags: Flags, exporterInit: Outcome<Error>, replies: Replies, n: int)
  {
    g.fatal <==> (exporterInit.Fail? || exists q :: Rank(q) < n && Asks(flags, q) && ReplyTo(replies, q).None?)
  }

  /** Among the first `n` prompts, each due one whose due predecessors got valid replies was shown. */
  predicate ShownSoFar(g: Gated, flags: Flags, exporterInit: Outcome<Error>, replies: Replies, n: int)
  {
    exporterInit.Pass? ==>
      forall p :: Rank(p) < n && Asks(flags, p) && (forall q :: Asks(flags, q) && Rank(q) < Rank(p) ==> ReplyTo(replies, q).Some?)
                  ==> p in g.asked
  }

  /** While main runs on, each choice among the first `n` prompts comes from its reply, the others from the flags. */
  predicate ChosenSoFar(g: Gated, flags: Flags, replies: Replies, n: int)
  {
    !g.fatal ==>
      && g.users == (if 0 < n && Asks(flags, UsersPrompt) then replies.users == Some(true) else flags.exportUsers)
      && g.posts == (if 1 < n && Asks(flags, PostsPrompt) then replies.posts == Some(true) else flags.exportPosts)
      && g.edits == (if 2 < n && Asks(flags, EditsPrompt) then replies.edits == Some(true) else flags.exportEdits)
  }

  lemma AskKeepsOrder(g: Gated, flags: Flags, replies: Replies, p: Prompt)
    requires OrderedSoFar(g, flags, Rank(p))
    ensures OrderedSoFar(Ask(g, flags, replies, p), flags, Rank(p) + 1)
  {
  }

  lemma AskKeepsStops(g: Gated, flags: Flags, exporterInit: Outcome<Error>, replies: Replies, p: Prompt)
    requires StopsSoFar(g, exporterInit, replies)
    ensures StopsSoFar(Ask(g, flags, replies, p), exporterInit, replies)
  {
  }

  lemma AskKeepsFatal(g: Gated, flags: Flags, exporterInit: Outcome<Error>, replies: Replies, p: Prompt)
    requires FatalSoFar(g, flags, exporterInit, replies, Rank(p))
    ensures FatalSoFar(Ask(g, flags, replies, p), flags, exporterInit, replies, Rank(p) + 1)
  {
    if !g.fatal && Asks(flags, p) && ReplyTo(replies, p).None? {
      assert Rank(p) < Rank(p) + 1;
    }
  }

  lemma AskKeepsShown(g: Gated, flags: Flags, exporterInit: Outcome<Error>, replies: Replies, p: Prompt)
    requires FatalSoFar(g, flags, exporterInit, replies, Rank(p))
    requires ShownSoFar(g, flags, exporterInit, replies, Rank(p))
    ensures ShownSoFar(Ask(g, flags, replies, p), flags, exporterInit, replies, Rank(p) + 1)
  {
    var g' := Ask(g, flags, replies, p);
    if exporterInit.Pass? {
      forall r | Rank(r) < Rank(p) + 1 && Asks(flags, r) && (forall q :: Asks(flags, q) && Rank(q) < Rank(r) ==> ReplyTo(replies, q).Some?)
        ensures r in g'.asked
      {
        if r == p {
          assert !g.fatal;
        } else {
          assert r in g.asked;
        }
      }
    }
  }

  lemma AskKeepsChosen(g: Gated, flags: Flags, replies: Replies, p: Prompt)
    requires ChosenSoFar(g, flags, replies, Rank(p))
    ensures ChosenSoFar(Ask(g, flags, replies, p), flags, replies, Rank(p) + 1)
  {
  }

  /** Prompts come in main's order, each at most once, and only when its condition holds. */
  lemma GateOrder(flags: Flags, exporterInit: Outcome<Error>, replies: Replies)
    ensures var g := Gate(flags, exporterInit, replies);
            && (forall i, j :: 0 <= i < j < |g.asked| ==> Rank(g.asked[i]) < Rank(g.asked[j]))
            && (forall p :: p in g.asked ==> Asks(flags, p))
  {
    var g0 := Gated(exporterInit.Fail?, [], flags.exportUsers, flags.exportPosts, flags.exportEdits);
    var g1 := Ask(g0, flags, replies, UsersPrompt);
    var g2 := Ask(g1, flags, replies, PostsPrompt);
    AskKeepsOrder(g0, flags, replies, UsersPrompt);
    AskKeepsOrder(g1, flags, replies, PostsPrompt);
    AskKeepsOrder(g2, flags, replies, EditsPrompt);
  }

  /**
   * A failed initialisation shows nothing; every prompt but the last one
   * shown got a valid reply, and a stop is an invalid reply to the last one.
   */
  lemma GateStops(flags: Flags, exporterInit: Outcome<Error>, replies: Replies)
    ensures var g := Gate(flags, exporterInit, replies);
            && (exporterInit.Fail? ==> g.fatal && g.asked == [])
            && (forall i :: 0 <= i < |g.asked| - 1 ==> ReplyTo(replies, g.asked[i]).Some?)
            && (g.fatal && exporterInit.Pass? ==> g.asked != [] && ReplyTo(replies, g.asked[|g.asked| - 1]).None?)
  {
    var g0 := Gated(exporterInit.Fail?, [], flags.exportUsers, flags.exportPosts, flags.exportEdits);
    var g1 := Ask(g0, flags, replies, UsersPrompt);
    var g2 := Ask(g1, flags, replies, PostsPrompt);
    AskKeepsStops(g0, flags, exporterInit, replies, UsersPrompt);
    AskKeepsStops(g1, flags, exporterInit, replies, PostsPrompt);
    AskKeepsStops(g2, flags, exporterInit, replies, EditsPrompt);
  }

  /** The first three invariants hold after the three blocks. */
  lemma GateFatalShown(flags: Flags, exporterInit: Outcome<Error>, replies: Replies)
    ensures FatalSoFar(Gate(flags, exporterInit, replies), flags, exporterInit, replies, 3)
    ensures ShownSoFar(Gate(flags, exporterInit, replies), flags, exporterInit, replies, 3)
  {
    var g0 := Gated(exporterInit.Fail?, [], flags.exportUsers, flags.exportPosts, flags.exportEdits);
    var g1 := Ask(g0, flags, replies, UsersPrompt);
    var g2 := Ask(g1, flags, replies, PostsPrompt);
    AskKeepsFatal(g0, flags, exporterInit, replies, UsersPrompt);
    AskKeepsShown(g0, flags, exporterInit, replies, UsersPrompt);
    AskKeepsFatal(g1, flags, exporterInit, replies, PostsPrompt);
    AskKeepsShown(g1, flags, exporterInit, replies, PostsPrompt);
    AskKeepsFatal(g2, flags, exporterInit, replies, EditsPrompt);
    AskKeepsShown(g2, flags, exporterInit, replies, EditsPrompt);
  }

  /** After a successful initialisation, a due prompt is shown unless an earlier one got an invalid reply. */
  lemma GatePrefix(flags: Flags, exporterInit: Outcome<Error>, replies: Replies)
    ensures var g := Gate(flags, exporterInit, replies);
            exporterInit.Pass? ==>
              forall p :: Asks(flags, p) && (forall q :: Asks(flags, q) && Rank(q) < Rank(p) ==> ReplyTo(replies, q).Some?)
                          ==> p in g.asked
  {
    GateFatalShown(flags, exporterInit, replies);
    var g := Gate(flags, exporterInit, replies);
    forall p | exporterInit.Pass? && Asks(flags, p) && (forall q :: Asks(flags, q) && Rank(q) < Rank(p) ==> ReplyTo(replies, q).Some?)
      ensures p in g.asked
    {
      assert Rank(p) < 3;
    }
  }

  /** A run that does not stop showed every due prompt, and takes each choice from its reply or its flag. */
  lemma GateChoices(flags: Flags, exporterInit: Outcome<Error>, replies: Replies)
    ensures var g := Gate(flags, exporterInit, replies);
            !g.fatal ==>
              && exporterInit.Pass?
              && (forall p :: Asks(flags, p) ==> p in g.asked && ReplyTo(replies, p).Some?)
              && g.users == (if Asks(flags, UsersPrompt) then replies.users == Some(true) else flags.exportUsers)
              && g.posts == (if Asks(flags, PostsPrompt) then replies.posts == Some(true) else flags.exportPosts)
              && g.edits == (if Asks(flags, EditsPrompt) then replies.edits == Some(true) else flags.exportEdits)
  {
    var g0 := Gated(exporterInit.Fail?, [], flags.exportUsers, flags.exportPosts, flags.exportEdits);
    var g1 := Ask(g0, flags, replies, UsersPrompt);
    var g2 := Ask(g1, flags, replies, PostsPrompt);
    AskKeepsChosen(g0, flags, replies, UsersPrompt);
    AskKeepsChosen(g1, flags, replies, PostsPrompt);
    AskKeepsChosen(g2, flags, replies, EditsPrompt);
    GateFatalShown(flags, exporterInit, replies);
    var g := Gate(flags, exporterInit, replies);
    forall p | !g.fatal && Asks(flags, p)
      ensures p in g.asked && ReplyTo(replies, p).Some?
    {
      assert Rank(p) < 3;
    }
  }

  /**
   * main.go, from the exporter initialisation to building ItemsToExport,
   * with each prompt's reply already parsed. `exporterInit` is what
   * initialising the exporter returned. Each `Ask` step is one of main's
   * three guarded prompt blocks. Returns None where main stops with
   * log.Fatal, and the prompts shown, in order.
   */
  method GateItems(flags: Flags, exporterInit: Outcome<Error>, replies: Replies)
    returns (items: Option<ItemsToExport>, asked: seq<Prompt>)
    ensures exporterInit.Fail? ==> items.None? && asked == []
    // prompts come in main's order, each at most once, and only when its condition holds
    ensures forall i, j :: 0 <= i < j < |asked| ==> Rank(asked[i]) < Rank(asked[j])
    ensures forall p :: p in asked ==> Asks(flags, p)
    // every prompt but the last one shown got a valid answer
    ensures forall i :: 0 <= i < |asked| - 1 ==> ReplyTo(replies, asked[i]).Some?
    // a fatal stop after initialisation is an invalid answer to the last prompt shown
    ensures items.None? && exporterInit.Pass? ==> asked != [] && ReplyTo(replies, asked[|asked| - 1]).None?
    // after a successful initialisation, a due prompt is shown unless an earlier one got an invalid reply
    ensures exporterInit.Pass? ==>
              forall p :: Asks(flags, p) && (forall q :: Asks(flags, q) && Rank(q) < Rank(p) ==> ReplyTo(replies, q).Some?)
                          ==> p in asked
    ensures items.Some? ==>
              && exporterInit.Pass?
              && (forall p :: Asks(flags, p) ==> p in asked && ReplyTo(replies, p).Some?)
              && items.value.users == (if Asks(flags, UsersPrompt) then replies.users == Some(true) else flags.exportUsers)
              && items.value.topicComments == (if Asks(flags, PostsPrompt) then replies.posts == Some(true) else flags.exportPosts)
              && items.value.topicEdits == (if Asks(flags, EditsPrompt) then replies.edits == Some(true) else flags.exportEdits)
              && items.value.limitToCategorySlug == flags.category
              && items.value.limitToTopicId == flags.topic
  {
    var g := Gated(exporterInit.Fail?, [], flags.exportUsers, flags.exportPosts, flags.exportEdits);
    g := Ask(g, flags, replies, UsersPrompt);
    g := Ask(g, flags, replies, PostsPrompt);
    g := Ask(g, flags, replies, EditsPrompt);
    GateOrder(flags, exporterInit, replies);
    GateStops(flags, exporterInit, replies);
    GatePrefix(flags, exporterInit, replies);
    GateChoices(flags, exporterInit, replies);
    asked := g.asked;
    if g.fatal {
      return None, asked;
    }
    items := Some(ItemsToExport(g.posts, g.edits, g.users, flags.category, flags.topic));
  }

  /** The same, reading the lines the user typed through PromptBool. */
  method ResolveItems(flags: Flags, exporterInit: Outcome<Error>, answers: Answers)
    returns (items: Option<ItemsToExport>, asked: seq<Prompt>)
    ensures exporterInit.Fail? ==> items.None? && asked == []
    ensures forall i, j :: 0 <= i < j < |asked| ==> Rank(asked[i]) < Rank(asked[j])
    ensures forall p :: p in asked ==> Asks(flags, p)
    ensures forall i :: 0 <= i < |asked| - 1 ==> PromptBool(AnswerTo(answers, asked[i])).Some?
    ensures items.None? && exporterInit.Pass? ==> asked != [] && PromptBool(AnswerTo(answers, asked[|asked| - 1])).None?
    ensures exporterInit.Pass? ==>
              forall p :: Asks(flags, p) && (forall q :: Asks(flags, q) && Rank(q) < Rank(p) ==> PromptBool(AnswerTo(answers, q)).Some?)
                          ==> p in asked
    ensures items.Some? ==>
              && exporterInit.Pass?
              && (forall p :: Asks(flags, p) ==> p in asked && PromptBool(AnswerTo(answers, p)).Some?)
              && items.value.users == (if Asks(flags, UsersPrompt) then PromptBool(answers.users) == Some(true) else flags.exportUsers)
              && items.value.topicComments == (if Asks(flags, PostsPrompt) then PromptBool(answers.posts) == Some(true) else flags.exportPosts)
              && items.value.topicEdits == (if Asks(flags, EditsPrompt) then PromptBool(answers.edits) == Some(true) else flags.exportEdits)
              && items.value.limitToCategorySlug == flags.category
              && items.value.limitToTopicId == flags.topic
  {
    var replies := Parse(answers);
    items, asked := GateItems(flags, exporterInit, replies);
  }
}
