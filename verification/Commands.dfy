/** The Lab 2 command line: `SendCommand` joins with single spaces, `parseCommand` splits on runs of spaces. */
module Commands {

  const SPACE: char := ' '

  /** Strings of runes; `strings.Join` with a single space. */
  function Join(tokens: seq<string>): string {
    if tokens == [] then ""
    else if |tokens| == 1 then tokens[0]
    else tokens[0] + [SPACE] + Join(tokens[1..])
  }

  /** What `SendCommand` transmits. */
  function CommandLine(cmd: string, args: seq<string>): string {
    if args == [] then cmd else cmd + [SPACE] + Join(args)
  }

  /** The maximal space-free pieces of `cmd`, where `current` is the piece already begun. */
  function Split(cmd: string, current: string): seq<string> {
    if cmd == "" then (if current == "" then [] else [current])
    else if cmd[0] == SPACE then (if current == "" then [] else [current]) + Split(cmd[1..], "")
    else Split(cmd[1..], current + [cmd[0]])
  }

  function Tokens(cmd: string): seq<string> { Split(cmd, "") }

  /** A token: not empty, without spaces. */
  predicate IsToken(s: string) {
    s != "" && SPACE !in s
  }

  predicate AllTokens(tokens: seq<string>) {
    forall i :: 0 <= i < |tokens| ==> IsToken(tokens[i])
  }

  method ParseCommand(cmd: string) returns (parts: seq<string>)
    ensures parts == Tokens(cmd)
    ensures AllTokens(parts)
  {
    parts := [];
    var current := "";
    for i := 0 to |cmd|
      invariant parts + Split(cmd[i..], current) == Tokens(cmd)
    {
      ghost var rest := cmd[i..];
      assert rest[1..] == cmd[i + 1..];
      if cmd[i] == SPACE {
        if current != "" {
          parts := parts + [current];
          current := "";
        }
      } else {
        current := current + [cmd[i]];
      }
    }
    assert cmd[|cmd|..] == "";
    if current != "" {
      parts := parts + [current];
    }
    SplitGivesTokens(cmd, "");
  }

  lemma {:induction false} SplitGivesTokens(cmd: string, current: string)
    requires SPACE !in current
    ensures AllTokens(Split(cmd, current))
    decreases |cmd|
  {
    if cmd != "" {
      if cmd[0] == SPACE {
        SplitGivesTokens(cmd[1..], "");
      } else {
        SplitGivesTokens(cmd[1..], current + [cmd[0]]);
      }
    }
  }

  /** A space-free stretch only extends the current piece. */
  lemma {:induction false} SplitWord(word: string, rest: string, current: string)
    requires SPACE !in word
    ensures Split(word + rest, current) == Split(rest, current + word)
    decreases |word|
  {
    if word == "" {
      assert word + rest == rest && current + word == current;
    } else {
      assert (word + rest)[1..] == word[1..] + rest;
      SplitWord(word[1..], rest, current + [word[0]]);
      assert current + [word[0]] + word[1..] == current + word;
    }
  }

  /** Splitting undoes joining, for every list of tokens. */
  lemma {:induction false} SplitJoin(tokens: seq<string>)
    requires AllTokens(tokens)
    ensures Tokens(Join(tokens)) == tokens
  {
    if tokens != [] {
      var t := tokens[0];
      if |tokens| == 1 {
        SplitWord(t, "", "");
        assert t + "" == t && "" + t == t;
      } else {
        var rest := [SPACE] + Join(tokens[1..]);
        SplitWord(t, rest, "");
        assert t + [SPACE] + Join(tokens[1..]) == t + rest;
        assert "" + t == t && rest[1..] == Join(tokens[1..]);
        SplitJoin(tokens[1..]);
        assert tokens == [t] + tokens[1..];
      }
    }
  }

  /** Main result: the server recovers the command and its arguments exactly when all are tokens. */
  lemma CommandRoundTrip(cmd: string, args: seq<string>)
    ensures Tokens(CommandLine(cmd, args)) == [cmd] + args <==> AllTokens([cmd] + args)
  {
    var all := [cmd] + args;
    assert all[1..] == args;
    assert CommandLine(cmd, args) == Join(all);
    if AllTokens(all) {
      SplitJoin(all);
    }
    SplitGivesTokens(CommandLine(cmd, args), "");
  }

  /** For any input whatever, rejoining what was parsed and parsing again changes nothing. */
  lemma ReparseIsIdentity(cmd: string)
    ensures AllTokens(Tokens(cmd))
    ensures Tokens(Join(Tokens(cmd))) == Tokens(cmd)
  {
    SplitGivesTokens(cmd, "");
    SplitJoin(Tokens(cmd));
  }

  /** All characters of the tokens. */
  function Letters(tokens: seq<string>): nat {
    if tokens == [] then 0 else |tokens[0]| + Letters(tokens[1..])
  }

  lemma {:induction false} JoinLength(tokens: seq<string>)
    ensures tokens != [] ==> |Join(tokens)| == Letters(tokens) + |tokens| - 1
  {
    if tokens != [] {
      JoinLength(tokens[1..]);
    }
  }

  /** What is sent is the command and, behind one space each, its arguments, and nothing else. */
  lemma {:induction false} CommandLineExact(cmd: string, args: seq<string>)
    ensures |CommandLine(cmd, args)| == |cmd| + Letters(args) + |args|
    ensures args != [] ==>
              var n := |args| - 1;
              CommandLine(cmd, args) == CommandLine(cmd, args[..n]) + " " + args[n]
  {
    JoinLength(args);
    if args != [] {
      JoinLast(args);
    }
  }

  lemma {:induction false} JoinLast(tokens: seq<string>)
    requires tokens != []
    ensures var n := |tokens| - 1;
      Join(tokens) == if n == 0 then tokens[0] else Join(tokens[..n]) + " " + tokens[n]
  {
    var n := |tokens| - 1;
    if n > 0 {
      JoinLast(tokens[1..]);
      assert tokens[1..][..n - 1] == tokens[..n][1..];
      if n == 1 {
        assert tokens[..1] == [tokens[0]];
      }
    }
  }

  /** A space separates: what is before it and what is behind it are parsed apart. */
  lemma {:induction false} SplitAtSpace(a: string, b: string, current: string)
    ensures Split(a + " " + b, current) == Split(a, current) + Tokens(b)
    decreases |a|
  {
    var all := a + " " + b;
    if a == "" {
      assert all[0] == SPACE && all[1..] == b;
    } else {
      assert all[0] == a[0] && all[1..] == a[1..] + " " + b;
      SplitAtSpace(a[1..], b, if a[0] == SPACE then "" else current + [a[0]]);
    }
  }

  /** With these the tokens of any input are determined: none of nothing, a space-free piece is its own, and a
      space separates. */
  lemma TokensExact(a: string, b: string, word: string)
    ensures Tokens("") == []
    ensures IsToken(word) ==> Tokens(word) == [word]
    ensures Tokens(a + " " + b) == Tokens(a) + Tokens(b)
  {
    SplitAtSpace(a, b, "");
    if IsToken(word) {
      SplitJoin([word]);
    }
  }
}
