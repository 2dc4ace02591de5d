/** Path resolution (shell/shell.c): C strings are sequences of characters other than NUL. */
module ShellPath {
  import opened Common

  const PATH_MAX := 128
  const COMP_MAX := 63
  const NUL: char := '\0'

  // ---- components ----

  /** The characters before the first slash. */
  function Head(s: string): (c: string)
    ensures c <= s && '/' !in c && (|c| < |s| ==> s[|c|] == '/')
  {
    if s == "" || s[0] == '/' then "" else [s[0]] + Head(s[1..])
  }

  /** What follows the first component and its slash. */
  function Tail(s: string): (t: string)
    ensures s != "" ==> |t| < |s|
  {
    if |Head(s)| < |s| then s[|Head(s)| + 1..] else ""
  }

  /** The components between slashes. */
  function Split(s: string): seq<string>
    decreases |s|
  {
    if s == "" then [] else [Head(s)] + Split(Tail(s))
  }

  function Cut(c: string): (d: string)
    ensures d <= c && |d| <= COMP_MAX
  {
    if |c| > COMP_MAX then c[..COMP_MAX] else c
  }

  function Pop(stack: seq<string>): (r: seq<string>)
    ensures |r| <= |stack|
  {
    if stack == [] then [] else stack[..|stack| - 1]
  }

  /** What one component does to the stack of directories. */
  function Step(stack: seq<string>, c: string): seq<string>
  {
    if Cut(c) == "" || Cut(c) == "." then stack
    else if Cut(c) == ".." then Pop(stack)
    else stack + [Cut(c)]
  }

  function Steps(stack: seq<string>, cs: seq<string>): seq<string>
    decreases |cs|
  {
    if cs == [] then stack else Steps(Step(stack, cs[0]), cs[1..])
  }

  /** The components with a slash before each. */
  function Joined(stack: seq<string>): (r: string)
    ensures stack == [] <==> r == ""
  {
    if stack == [] then "" else Joined(stack[..|stack| - 1]) + "/" + stack[|stack| - 1]
  }

  function Render(stack: seq<string>): (r: string)
    ensures r != "" && (stack == [] <==> r == "/" && stack == [])
  {
    if stack == [] then "/" else Joined(stack)
  }

  /** The meaning of an absolute path. */
  function Normal(path: string): string
    requires path != ""
  {
    Render(Steps([], Split(path[1..])))
  }

  // ---- the path that is resolved ----

  function Fit(s: string): (r: string)
    ensures r <= s && |r| <= PATH_MAX - 1 && (|s| < PATH_MAX ==> r == s)
  {
    if |s| < PATH_MAX then s else s[..PATH_MAX - 1]
  }

  /** Whether the shell puts a slash between the working directory and the input. */
  predicate AddsSlash(cwd: string)
  {
    0 < |cwd| < PATH_MAX - 2 && cwd[|cwd| - 1] != '/'
  }

  /** The absolute path `resolve_path` starts from. */
  function Absolute(cwd: string, input: string): (r: string)
    requires cwd != "" && cwd[0] == '/'
    ensures 0 < |r| < PATH_MAX && r[0] == '/'
  {
    if input != "" && input[0] == '/' then Fit(input)
    else if input != "" && input[0] == '~' then
      Fit("/home" + (if |input| > 1 && input[1] != '/' then "/" else "") + input[1..])
    else Fit(Fit(cwd) + (if AddsSlash(Fit(cwd)) then "/" else "") + input)
  }

  /** `resolve_path`. */
  function Resolve(cwd: string, input: string): string
    requires cwd != "" && cwd[0] == '/'
  {
    Normal(Absolute(cwd, input))
  }

  // ---- what it promises ----

  /** A component that stands for a directory. */
  predicate Proper(c: string) { 0 < |c| <= COMP_MAX && '/' !in c && c != "." && c != ".." }

  predicate AllProper(stack: seq<string>) { forall i | 0 <= i < |stack| :: Proper(stack[i]) }

  lemma {:induction false} StepsProper(stack: seq<string>, cs: seq<string>)
    requires AllProper(stack) && forall i | 0 <= i < |cs| :: '/' !in cs[i]
    ensures AllProper(Steps(stack, cs))
    decreases |cs|
  {
    if cs != [] {
      assert '/' !in cs[0];
      assert AllProper(Step(stack, cs[0]));
      StepsProper(Step(stack, cs[0]), cs[1..]);
    }
  }

  lemma {:induction false} SplitSlashless(s: string)
    ensures forall i | 0 <= i < |Split(s)| :: '/' !in Split(s)[i]
    decreases |s|
  {
    if s != "" {
      SplitSlashless(Tail(s));
    }
  }

  lemma {:induction false} HeadOf(c: string, rest: string)
    requires '/' !in c && (rest == "" || rest[0] == '/')
    ensures Head(c + rest) == c
  {
    if c == "" {
      assert c + rest == rest;
    } else {
      HeadOf(c[1..], rest);
      assert (c + rest)[1..] == c[1..] + rest;
    }
  }

  lemma {:induction false} JoinedFront(stack: seq<string>)
    requires stack != []
    ensures Joined(stack) == "/" + stack[0] + Joined(stack[1..])
    decreases |stack|
  {
    if |stack| > 1 {
      var init := stack[..|stack| - 1];
      JoinedFront(init);
      assert stack[1..][..|stack| - 2] == init[1..];
    } else {
      assert stack[..0] == [] && stack[1..] == [];
    }
  }

  lemma JoinedSlash(stack: seq<string>)
    ensures Joined(stack) == "" || Joined(stack)[0] == '/'
  {
    if stack != [] {
      JoinedFront(stack);
    }
  }

  /** Splitting what was joined gives the components back. */
  lemma {:induction false} SplitJoined(stack: seq<string>)
    requires AllProper(stack) && stack != []
    ensures Split(Joined(stack)[1..]) == stack
    decreases |stack|
  {
    hide Joined, Split;
    JoinedFront(stack);
    JoinedSlash(stack[1..]);
    JoinedEmpty(stack[1..]);
    var c, rest := stack[0], Joined(stack[1..]);
    assert Proper(c);
    if |stack| > 1 {
      assert Joined(stack)[1..] == c + "/" + rest[1..];
      SplitCons(c, rest[1..]);
      SplitJoined(stack[1..]);
    } else {
      assert Joined(stack)[1..] == c;
      WordSplit(c);
    }
    assert stack == [c] + stack[1..];
  }

  lemma SplitRender(stack: seq<string>)
    requires AllProper(stack)
    ensures Split(Render(stack)[1..]) == stack
  {
    if stack == [] {
      assert Render(stack)[1..] == "";
    } else {
      SplitJoined(stack);
    }
  }

  /** Proper components are pushed one after the other. */
  lemma {:induction false} StepsPush(stack: seq<string>, cs: seq<string>)
    requires AllProper(cs)
    ensures Steps(stack, cs) == stack + cs
    decreases |cs|
  {
    if cs != [] {
      assert Proper(cs[0]);
      StepsPush(stack + [cs[0]], cs[1..]);
      assert stack + [cs[0]] + cs[1..] == stack + cs;
    } else {
      assert stack + cs == stack;
    }
  }

  /** The stack a result was rendered from. */
  function StackOf(path: string): seq<string>
    requires path != ""
  {
    Steps([], Split(path[1..]))
  }

  lemma StackProper(path: string)
    requires path != ""
    ensures AllProper(StackOf(path))
  {
    SplitSlashless(path[1..]);
    StepsProper([], Split(path[1..]));
  }

  /** Every result is absolute and has no empty, "." or ".." component and none over 63 characters. */
  lemma ResolveClean(cwd: string, input: string)
    requires cwd != "" && cwd[0] == '/'
    ensures
      var r := Resolve(cwd, input);
      r != "" && r[0] == '/' && AllProper(Split(r[1..])) && Render(Split(r[1..])) == r
  {
    var stack := StackOf(Absolute(cwd, input));
    StackProper(Absolute(cwd, input));
    SplitRender(stack);
    JoinedSlash(stack);
  }

  // ---- lengths ----

  function Size(stack: seq<string>): nat { if stack == [] then 0 else |Joined(stack)| }

  lemma PopSmaller(stack: seq<string>)
    ensures Size(Pop(stack)) <= Size(stack)
  {}

  /** Rendering never needs more room than the path that was walked. */
  lemma {:induction false} StepsSize(stack: seq<string>, s: string)
    ensures Size(Steps(stack, Split(s))) <= Size(stack) + |s| + 1
    ensures s == "" ==> Steps(stack, Split(s)) == stack
    decreases |s|
  {
    if s != "" {
      var next := Step(stack, Head(s));
      StepSize(stack, Head(s));
      StepsSize(next, Tail(s));
      assert Split(s)[1..] == Split(Tail(s));
      if |Head(s)| < |s| {
        assert |Tail(s)| == |s| - |Head(s)| - 1;
      }
    }
  }

  lemma StepSize(stack: seq<string>, c: string)
    ensures Size(Step(stack, c)) <= Size(stack) + |c| + 1
  {
    PopSmaller(stack);
    if Step(stack, c) == stack + [Cut(c)] {
      assert (stack + [Cut(c)])[..|stack|] == stack;
    }
  }

  lemma ResolveFits(cwd: string, input: string)
    requires cwd != "" && cwd[0] == '/'
    ensures |Resolve(cwd, input)| < PATH_MAX
  {
    var path := Absolute(cwd, input);
    StepsSize([], path[1..]);
  }

  /** Resolving a result again, in any directory, gives it back. */
  lemma ResolveIdempotent(cwd: string, input: string, other: string)
    requires cwd != "" && cwd[0] == '/' && other != "" && other[0] == '/'
    ensures Resolve(other, Resolve(cwd, input)) == Resolve(cwd, input)
  {
    ResolveClean(cwd, input);
    ResolveFits(cwd, input);
    var r := Resolve(cwd, input);
    StepsPush([], Split(r[1..]));
    assert [] + Split(r[1..]) == Split(r[1..]);
  }

  // ---- the stack semantics ----

  lemma {:induction false} StepsConcat(stack: seq<string>, a: seq<string>, b: seq<string>)
    ensures Steps(stack, a + b) == Steps(Steps(stack, a), b)
    decreases |a|
  {
    if a == [] {
      assert a + b == b;
    } else {
      StepsConcat(Step(stack, a[0]), a[1..], b);
      assert (a + b)[1..] == a[1..] + b;
    }
  }

  /** A slash after proper components separates them from what follows. */
  lemma {:induction false} SplitAppend(stack: seq<string>, s: string)
    requires AllProper(stack) && stack != []
    ensures Split(Joined(stack)[1..] + "/" + s) == stack + Split(s)
    decreases |stack|
  {
    hide Joined, Split;
    JoinedFront(stack);
    JoinedSlash(stack[1..]);
    var c, rest := stack[0], Joined(stack[1..]);
    assert Proper(c);
    if |stack| > 1 {
      assert rest != "" by { JoinedEmpty(stack[1..]); }
      assert Joined(stack)[1..] + "/" + s == c + "/" + (rest[1..] + "/" + s);
      SplitCons(c, rest[1..] + "/" + s);
      SplitAppend(stack[1..], s);
      assert stack + Split(s) == [c] + (stack[1..] + Split(s));
    } else {
      assert rest == "" by { JoinedEmpty(stack[1..]); }
      assert Joined(stack)[1..] + "/" + s == c + "/" + s;
      SplitCons(c, s);
      assert stack == [c];
    }
  }

  lemma JoinedEmpty(stack: seq<string>)
    ensures Joined(stack) == "" <==> stack == []
  {}

  lemma SplitCons(c: string, t: string)
    requires '/' !in c
    ensures Split(c + "/" + t) == [c] + Split(t)
  {
    var s := c + "/" + t;
    assert s == c + ("/" + t);
    HeadOf(c, "/" + t);
    assert Tail(s) == t;
  }

  /** An input that starts with a slash and fits: its components applied in turn to the root. */
  lemma ResolveAbsolute(cwd: string, input: string)
    requires cwd != "" && cwd[0] == '/' && input != "" && input[0] == '/' && |input| < PATH_MAX
    ensures Resolve(cwd, input) == Render(Steps([], Split(input[1..])))
  {}

  /** A relative input that fits: its components applied in turn to the working directory. */
  lemma ResolveRelative(stack: seq<string>, input: string)
    requires AllProper(stack) && |Render(stack)| < PATH_MAX
    requires input != "" ==> |Render(stack)| + (if stack == [] then 0 else 1) + |input| < PATH_MAX
    requires input == "" || (input[0] != '/' && input[0] != '~')
    ensures Render(stack)[0] == '/' && Resolve(Render(stack), input) == Render(Steps(stack, Split(input)))
  {
    hide Steps, Split, Absolute, Joined;
    var cwd := Render(stack);
    JoinedSlash(stack);
    if stack == [] {
      FromRoot(input);
    } else {
      StepsPush([], stack);
      assert [] + stack == stack;
      FromBelow(stack, input);
      if AddsSlash(cwd) {
        SplitAppend(stack, input);
        StepsConcat([], stack, Split(input));
      } else {
        SplitJoined(stack);
        NoSteps(stack);
      }
    }
  }

  lemma FromRoot(input: string)
    requires |input| + 1 < PATH_MAX && (input == "" || (input[0] != '/' && input[0] != '~'))
    ensures Absolute("/", input)[1..] == input
  {
    assert "/" + "" + input == "/" + input;
  }

  /** A working directory below the root: a slash goes between it and the input. */
  lemma FromBelow(stack: seq<string>, input: string)
    requires AllProper(stack) && stack != [] && |Render(stack)| < PATH_MAX && Render(stack)[0] == '/'
    requires input != "" ==> |Render(stack)| + 1 + |input| < PATH_MAX
    requires input == "" || (input[0] != '/' && input[0] != '~')
    ensures
      var cwd := Render(stack);
      Absolute(cwd, input)[1..] == if AddsSlash(cwd) then cwd[1..] + "/" + input else cwd[1..]
    ensures !AddsSlash(Render(stack)) ==> input == ""
  {
    LastOfRender(stack);
    hide Render;
    var cwd := Render(stack);
    assert cwd + "/" + input == [cwd[0]] + (cwd[1..] + "/" + input);
    assert cwd + "" + "" == cwd;
  }

  lemma LastOfRender(stack: seq<string>)
    requires AllProper(stack) && stack != []
    ensures Render(stack)[|Render(stack)| - 1] != '/'
  {
    var c := stack[|stack| - 1];
    assert Proper(c);
    assert c[|c| - 1] in c;
    assert Joined(stack)[|Joined(stack)| - 1] == c[|c| - 1];
  }

  lemma ResolveHome(cwd: string, input: string)
    requires cwd != "" && cwd[0] == '/' && input != "" && input[0] == '~'
    requires |input| + (if |input| > 1 && input[1] != '/' then 5 else 4) < PATH_MAX
    ensures Resolve(cwd, input) == Render(Steps(["home"], Split(input[1..])))
  {
    hide Split, Steps, Render;
    var rest := input[1..];
    var home := ["home"];
    StepsPush([], home);
    assert [] + home == home;
    if rest == "" {
      assert Absolute(cwd, input)[1..] == "home";
      WordSplit("home");
      assert Steps(home, Split(rest)) == home by { NoSteps(home); }
    } else {
      var s := if rest[0] == '/' then rest[1..] else rest;
      assert Absolute(cwd, input)[1..] == "home" + "/" + s;
      SplitCons("home", s);
      StepsConcat([], home, Split(s));
      if rest[0] == '/' {
        assert rest == "" + "/" + s;
        SplitCons("", s);
        EmptyStep(home, Split(s));
      }
    }
  }

  lemma WordSplit(c: string)
    requires c != "" && '/' !in c
    ensures Split(c) == [c]
  {
    assert c + "" == c;
    HeadOf(c, "");
  }

  lemma NoSteps(stack: seq<string>)
    ensures Steps(stack, Split("")) == stack
  {}

  lemma EmptyStep(stack: seq<string>, cs: seq<string>)
    ensures Steps(stack, [""] + cs) == Steps(stack, cs)
  {
    assert ([""] + cs)[1..] == cs;
  }

  // ---- which components are left ----

  predicate IsName(c: string) { c != "" && c != "." && c != ".." }

  /** Names less steps up. */
  function Net(cs: seq<string>): int
  {
    if cs == [] then 0
    else Net(cs[..|cs| - 1]) + (var c := cs[|cs| - 1]; if IsName(c) then 1 else if c == ".." then -1 else 0)
  }

  /** No beginning of these components steps up more often than it names a directory. */
  ghost predicate StaysAbove(cs: seq<string>) { forall k | 0 <= k <= |cs| :: Net(cs[..k]) >= 0 }

  function First63(c: string): string { if |c| > 63 then c[..63] else c }

  /** What one more component makes of the names left. */
  function Onward(left: seq<string>, c: string): seq<string>
  {
    if IsName(c) then left + [First63(c)] else if c == ".." && left != [] then left[..|left| - 1] else left
  }

  /** The names that no later step up undoes, each with its first 63 characters. */
  ghost function Left(cs: seq<string>): seq<string>
    decreases |cs|
  {
    if cs == [] then []
    else
      (if IsName(cs[0]) && StaysAbove(cs[1..]) then [First63(cs[0])] else [])
      + Left(cs[1..])
  }

  lemma NetAppend(cs: seq<string>, c: string)
    ensures Net(cs + [c]) == Net(cs) + (if IsName(c) then 1 else if c == ".." then -1 else 0)
  {
    assert (cs + [c])[..|cs|] == cs;
  }

  lemma StaysAppend(cs: seq<string>, c: string)
    ensures StaysAbove(cs + [c]) <==> StaysAbove(cs) && Net(cs + [c]) >= 0
  {
    var all := cs + [c];
    assert all[..|all|] == all;
    forall k | 0 <= k <= |cs| ensures all[..k] == cs[..k] {}
    if StaysAbove(all) {
      forall k | 0 <= k <= |cs| ensures Net(cs[..k]) >= 0 { assert Net(all[..k]) >= 0; }
    }
  }

  /** After names and steps up that stay above, as many names are left as the difference says. */
  lemma {:induction false} LeftSize(cs: seq<string>)
    requires StaysAbove(cs)
    ensures |Left(cs)| == Net(cs)
    decreases |cs|
  {
    if cs != [] {
      var n := |cs| - 1;
      assert cs == cs[..n] + [cs[n]];
      StaysAppend(cs[..n], cs[n]);
      NetAppend(cs[..n], cs[n]);
      LeftSize(cs[..n]);
      LeftAppend(cs[..n], cs[n]);
    }
  }

  /** A name is left at the end; a step up undoes the last that was left; anything else changes nothing. */
  lemma {:induction false} LeftAppend(cs: seq<string>, c: string)
    ensures Left(cs + [c]) == Onward(Left(cs), c)
    decreases |cs|
  {
    hide StaysAbove, Net;
    if cs == [] {
      assert [] + [c] == [c] && [c][1..] == [];
      NothingStays();
    } else {
      var h, t := cs[0], cs[1..];
      assert (cs + [c])[0] == h && (cs + [c])[1..] == t + [c];
      LeftAppend(t, c);
      StaysAppend(t, c);
      NetAppend(t, c);
      if StaysAbove(t) { LeftSize(t); }
      LeftOf(h, t);
      LeftOf(h, t + [c]);
      assert cs == [h] + t && cs + [c] == [h] + (t + [c]);
      hide Left;
      OneMore(First63(h), IsName(h) && StaysAbove(t), IsName(h) && StaysAbove(t + [c]), Left(t), c);
    }
  }

  /** A name before others is left just while they do not use it up. */
  lemma OneMore(name: string, was: bool, still: bool, left: seq<string>, c: string)
    requires still <==> was && |left| + (if IsName(c) then 1 else if c == ".." then -1 else 0) >= 0
    ensures
      (if still then [name] + Onward(left, c) else Onward(left, c)) ==
        Onward(if was then [name] + left else left, c)
  {}

  lemma NothingStays()
    ensures StaysAbove([])
  {}

  lemma LeftOf(h: string, t: seq<string>)
    ensures
      Left([h] + t) ==
        if IsName(h) && StaysAbove(t) then [First63(h)] + Left(t) else Left(t)
  {
    hide StaysAbove;
    assert ([h] + t)[1..] == t && [] + Left(t) == Left(t);
  }

  /** Walking the components keeps exactly those names, in order. */
  lemma {:induction false} StepsAreLeft(cs: seq<string>)
    ensures Steps([], cs) == Left(cs)
    decreases |cs|
  {
    if cs != [] {
      var n := |cs| - 1;
      assert cs == cs[..n] + [cs[n]];
      StepsAreLeft(cs[..n]);
      StepsConcat([], cs[..n], [cs[n]]);
      LeftAppend(cs[..n], cs[n]);
      OneStep(Steps([], cs[..n]), cs[n]);
    }
  }

  lemma OneStep(stack: seq<string>, c: string)
    ensures Steps(stack, [c]) == Onward(stack, c)
  {
    assert [c][1..] == [];
    assert Steps(stack, [c]) == Step(stack, c);
  }

  /** What any input resolves to: the names of its absolute path that no later step up undoes. */
  lemma ResolveIsLeft(cwd: string, input: string)
    requires cwd != "" && cwd[0] == '/'
    ensures Resolve(cwd, input) == Render(Left(Split(Absolute(cwd, input)[1..])))
  {
    StepsAreLeft(Split(Absolute(cwd, input)[1..]));
  }
}
