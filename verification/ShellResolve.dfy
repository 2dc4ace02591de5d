/** `resolve_path` as it runs (shell/shell.c): two 128-character buffers edited in place. */
module ShellResolve {
  import opened Common
  import opened ShellPath

  /** What the result buffer holds for a stack: a pop leaves a slash behind. */
  predicate Shown(r: string, stack: seq<string>)
  {
    r == Render(stack) || (stack != [] && r == Render(stack) + "/")
  }

  /** The room a result takes once a slash ends it. */
  function Room(r: string): nat
    requires r != ""
  {
    if r[|r| - 1] == '/' then |r| else |r| + 1
  }

  /** Append characters while the buffer has room. */
  method Append(buf: array<char>, at: nat, s: string) returns (end: nat)
    requires buf.Length == PATH_MAX && at < PATH_MAX
    modifies buf
    ensures end < PATH_MAX && buf[..end] == Fit(old(buf[..at]) + s)
  {
    end := at;
    var k := 0;
    while k < |s| && end < PATH_MAX - 1
      invariant k <= |s| && end == at + k < PATH_MAX
      invariant buf[..end] == old(buf[..at]) + s[..k]
    {
      buf[end] := s[k];
      end := end + 1;
      k := k + 1;
    }
  }

  /** Copy a whole string to the front of the buffer. */
  method Copy(buf: array<char>, s: string) returns (end: nat)
    requires buf.Length == PATH_MAX
    modifies buf
    ensures end < PATH_MAX && buf[..end] == Fit(s)
  {
    end := Append(buf, 0, s);
    assert old(buf[..0]) + s == s;
  }

  method Put(buf: array<char>, at: nat, c: char) returns (end: nat)
    requires buf.Length == PATH_MAX && at < PATH_MAX
    modifies buf
    ensures end == at + 1 && buf[..end] == old(buf[..at]) + [c]
  {
    buf[at] := c;
    end := at + 1;
  }

  /** A tilde stands for /home. */
  method StartHome(input: string, tmp: array<char>) returns (len: nat)
    requires input != "" && tmp.Length == PATH_MAX
    modifies tmp
    ensures len < PATH_MAX
    ensures tmp[..len] == Fit("/home" + (if |input| > 1 && input[1] != '/' then "/" else "") + input[1..])
  {
    hide Fit;
    len := Copy(tmp, "/home");
    assert tmp[..len] == "/home" by { FitShort("/home"); }
    if |input| > 1 {
      if input[1] != '/' {
        len := Put(tmp, len, '/');
      }
      assert tmp[..len] == "/home" + (if input[1] != '/' then "/" else "");
      len := Append(tmp, len, input[1..]);
    } else {
      assert "/home" + "" + input[1..] == "/home";
      FitShort("/home");
    }
  }

  lemma FitShort(s: string)
    requires |s| < PATH_MAX
    ensures Fit(s) == s
  {}

  /** A relative input follows the working directory. */
  method StartRelative(cwd: string, input: string, tmp: array<char>) returns (len: nat)
    requires cwd != "" && tmp.Length == PATH_MAX
    modifies tmp
    ensures len < PATH_MAX
    ensures tmp[..len] == Fit(Fit(cwd) + (if AddsSlash(Fit(cwd)) then "/" else "") + input)
  {
    len := Copy(tmp, cwd);
    ghost var base := tmp[..len];
    assert base == Fit(cwd) && base != "" && base[|base| - 1] == tmp[len - 1];
    hide Fit;
    if len < PATH_MAX - 2 && tmp[len - 1] != '/' {
      len := Put(tmp, len, '/');
    } else {
      assert base + "" == base;
    }
    assert tmp[..len] == base + (if AddsSlash(base) then "/" else "");
    len := Append(tmp, len, input);
  }

  /** The first part of `resolve_path`: the absolute path to walk, ended by a NUL. */
  method Start(cwd: string, input: string, tmp: array<char>) returns (len: nat)
    requires cwd != "" && cwd[0] == '/' && tmp.Length == PATH_MAX
    modifies tmp
    ensures len < PATH_MAX && tmp[..len] == Absolute(cwd, input) && tmp[len] == NUL
  {
    hide Fit;
    if input != "" && input[0] == '/' {
      len := Copy(tmp, input);
    } else if input != "" && input[0] == '~' {
      len := StartHome(input, tmp);
    } else {
      len := StartRelative(cwd, input, tmp);
    }
    ghost var path := tmp[..len];
    tmp[len] := NUL;
    assert tmp[..len] == path;
  }

  lemma HeadGrows(s: string, n: nat)
    requires n <= |Head(s)|
    ensures n == |Head(s)| <==> n == |s| || s[n] == '/'
  {
    if n < |Head(s)| {
      assert Head(s)[n] in Head(s);
    }
  }

  /** The component loop: collect up to 63 characters and pass the rest of the component. */
  method ReadComponent(tmp: array<char>, len: nat, start: nat) returns (comp: string, p: nat)
    requires tmp.Length == PATH_MAX && start <= len < PATH_MAX && tmp[len] == NUL && NUL !in tmp[..len]
    ensures comp == Cut(Head(tmp[start..len])) && p == start + |Head(tmp[start..len])|
  {
    hide Head, Cut;
    ghost var s := tmp[start..len];
    var buf := new char[COMP_MAX + 1];
    var ci := 0;
    p := start;
    assert s[..0] == "" && Cut("") == "" by { CutShort(""); }
    while tmp[p] != NUL && tmp[p] != '/'
      invariant start <= p <= len && p - start <= |Head(s)|
      invariant ci <= COMP_MAX && buf[..ci] == Cut(s[..p - start])
      decreases len - p
    {
      HeadGrows(s, p - start);
      CutGrows(s, p - start);
      if ci < COMP_MAX {
        buf[ci] := tmp[p];
        ci := ci + 1;
      }
      p := p + 1;
    }
    HeadGrows(s, p - start);
    if p < len {
      assert tmp[p] in tmp[..len];
    }
    assert s[..p - start] == Head(s) by { HeadPrefix(s); }
    ghost var kept := buf[..ci];
    buf[ci] := NUL;
    assert buf[..ci] == kept;
    comp := buf[..ci];
  }

  lemma HeadPrefix(s: string)
    ensures |Head(s)| <= |s| && s[..|Head(s)|] == Head(s)
  {}

  lemma CutShort(c: string)
    requires |c| <= COMP_MAX
    ensures Cut(c) == c
  {}

  lemma CutGrows(s: string, n: nat)
    requires n < |s|
    ensures |Cut(s[..n])| <= COMP_MAX
    ensures Cut(s[..n + 1]) == if |Cut(s[..n])| < COMP_MAX then Cut(s[..n]) + [s[n]] else Cut(s[..n])
  {}

  /** Drop the last component, leaving the slash before it. */
  method PopComponent(result: array<char>, start: nat, ghost stack: seq<string>) returns (ri: nat)
    requires result.Length == PATH_MAX && 0 < start < PATH_MAX && Shown(result[..start], stack) && AllProper(stack)
    modifies result
    ensures 0 < ri <= start && result[..ri] == old(result[..ri])
    ensures Shown(result[..ri], Pop(stack)) && result[ri - 1] == '/'
  {
    hide Joined, Render, AllProper;
    ri := start;
    ghost var shown := result[..start];
    if ri <= 1 {
      ri := 1;
      ShortStack(shown, stack);
      assert Render([]) == "/" by { RenderEmpty(); }
    } else {
      LongStack(shown, stack);
      ghost var init, c := Pop(stack), stack[|stack| - 1];
      ghost var text := Joined(init) + "/" + c;
      if result[ri - 1] == '/' {
        ri := ri - 1;
      }
      assert result[..ri] == text;
      ri := BackUp(result, ri, Joined(init), c);
      PoppedShown(init);
    }
    ghost var kept := result[..ri];
    result[ri] := NUL;
    assert result[..ri] == kept;
  }

  lemma RenderEmpty()
    ensures Render([]) == "/"
  {}

  lemma PoppedShown(init: seq<string>)
    ensures Shown(Joined(init) + "/", init)
  {}

  /** A buffer of more than the root slash ends with the last component, and maybe a slash. */
  lemma LongStack(r: string, stack: seq<string>)
    requires Shown(r, stack) && AllProper(stack) && |r| > 1
    ensures stack != [] && '/' !in stack[|stack| - 1]
    ensures
      var text := Joined(Pop(stack)) + "/" + stack[|stack| - 1];
      r == if r[|r| - 1] == '/' then text + "/" else text
  {
    LastOfRender(stack);
  }

  /** Step back to just after the last slash. */
  method BackUp(result: array<char>, start: nat, ghost init: string, ghost c: string) returns (ri: nat)
    requires result.Length == PATH_MAX && 0 < start < PATH_MAX && result[..start] == init + "/" + c && '/' !in c
    ensures ri == |init| + 1 <= start && result[..ri] == init + "/"
  {
    ghost var text := init + "/" + c;
    forall k | |init| + 1 <= k < start ensures result[k] != '/' {
      assert result[k] == text[k] == c[k - (|init| + 1)];
      assert c[k - (|init| + 1)] in c;
    }
    ri := start;
    while ri > 1 && result[ri - 1] != '/'
      invariant |init| + 1 <= ri <= start
    {
      assert result[ri - 1] == text[ri - 1];
      ri := ri - 1;
    }
    assert result[..ri] == text[..ri];
  }

  lemma ShortStack(r: string, stack: seq<string>)
    requires Shown(r, stack) && AllProper(stack) && |r| <= 1
    ensures stack == []
  {
    if stack != [] {
      LastOfRender(stack);
    }
  }

  /** Add a component, with a slash before it where one is missing. */
  method PushComponent(result: array<char>, start: nat, comp: string, ghost stack: seq<string>) returns (ri: nat)
    requires result.Length == PATH_MAX && 0 < start < PATH_MAX && Shown(result[..start], stack)
    requires AllProper(stack) && Proper(comp)
    requires Room(result[..start]) + |comp| < PATH_MAX
    modifies result
    ensures 0 < ri < PATH_MAX && ri == Room(old(result[..start])) + |comp|
    ensures result[..ri] == Render(stack + [comp])
  {
    ri := start;
    ghost var shown := result[..start];
    assert (stack + [comp])[..|stack|] == stack;
    if stack != [] {
      LastOfRender(stack);
    }
    if ri > 1 && result[ri - 1] != '/' {
      result[ri] := '/';
      ri := ri + 1;
    } else {
      assert stack == [] ==> shown == "/";
      ShortShown(shown, stack);
    }
    assert result[..ri] == Joined(stack) + "/";
    assert ri == Room(shown);
    ri := Append(result, ri, comp);
    assert Joined(stack + [comp]) == Joined(stack) + "/" + comp;
    ghost var kept := result[..ri];
    result[ri] := NUL;
    assert result[..ri] == kept;
  }

  lemma ShortShown(r: string, stack: seq<string>)
    requires Shown(r, stack) && AllProper(stack) && (|r| <= 1 || r[|r| - 1] == '/')
    ensures r == Joined(stack) + "/"
  {
    if |r| <= 1 {
      ShortStack(r, stack);
    } else if stack != [] {
      LastOfRender(stack);
    }
  }

  /** One turn of the main loop, from the component at `p`. */
  method Turn(tmp: array<char>, len: nat, start: nat, result: array<char>, ri0: nat, ghost stack: seq<string>)
    returns (p: nat, ri: nat, ghost next: seq<string>)
    requires tmp.Length == PATH_MAX && start < len < PATH_MAX && tmp[len] == NUL && NUL !in tmp[..len]
    requires result.Length == PATH_MAX && result != tmp && 0 < ri0 < PATH_MAX
    requires Shown(result[..ri0], stack) && AllProper(stack) && Room(result[..ri0]) <= start
    modifies result
    ensures start < p <= len && 0 < ri < PATH_MAX && ri <= p && (p < len ==> Room(result[..ri]) <= p)
    ensures Shown(result[..ri], next) && AllProper(next)
    ensures next == Step(stack, Head(tmp[start..len])) && tmp[p..len] == Tail(tmp[start..len])
  {
    hide Joined, Render, Head;
    ghost var s := tmp[start..len];
    var comp;
    comp, p := ReadComponent(tmp, len, start);
    HeadEnds(s);
    if tmp[p] == '/' {
      p := p + 1;
    }
    assert tmp[p..len] == Tail(s);
    ri := ri0;
    next := Step(stack, Head(s));
    if |comp| == 0 || (comp[0] == '.' && |comp| == 1) {
      return;
    }
    if comp[0] == '.' && |comp| == 2 && comp[1] == '.' {
      assert comp == "..";
      ri := PopComponent(result, ri0, stack);
      return;
    }
    assert Proper(comp);
    ri := PushComponent(result, ri0, comp, stack);
  }

  lemma HeadEnds(s: string)
    ensures |Head(s)| <= |s| && '/' !in Head(s) && (|Head(s)| < |s| ==> s[|Head(s)|] == '/')
    ensures '/' !in Cut(Head(s)) && |Cut(Head(s))| <= |Head(s)|
  {}

  /** The main loop, from after the leading slash. */
  method Walk(tmp: array<char>, len: nat, result: array<char>) returns (ri: nat, ghost stack: seq<string>)
    requires tmp.Length == PATH_MAX && 0 < len < PATH_MAX && tmp[len] == NUL && NUL !in tmp[..len]
    requires result.Length == PATH_MAX && result != tmp && result[0] == '/'
    modifies result
    ensures 0 < ri < PATH_MAX && Shown(result[..ri], stack) && AllProper(stack)
    ensures stack == Steps([], Split(tmp[1..len]))
  {
    hide Joined, Head, Render, Split, Steps, Step;
    forall k | 0 <= k < len ensures tmp[k] != NUL {
      assert tmp[k] in tmp[..len];
    }
    assert result[..1] == "/";
    ri, stack := 1, [];
    assert Shown(result[..1], stack) by { RenderEmpty(); }
    var p := 1;
    while tmp[p] != NUL
      invariant 0 < p <= len && 0 < ri < PATH_MAX && Shown(result[..ri], stack) && AllProper(stack)
      invariant p < len ==> Room(result[..ri]) <= p
      invariant Steps(stack, Split(tmp[p..len])) == Steps([], Split(tmp[1..len]))
      decreases len - p
    {
      WalkOne(stack, tmp[p..len]);
      p, ri, stack := Turn(tmp, len, p, result, ri, stack);
    }
    assert tmp[p..len] == "";
    NoSteps(stack);
  }

  /** For every input the buffers are not overrun, and the result is the path the components mean. */
  method ResolvePath(cwd: string, input: string) returns (out: string)
    requires cwd != "" && cwd[0] == '/' && NUL !in cwd && NUL !in input
    ensures out == Resolve(cwd, input)
  {
    hide Render, Steps, Split, Absolute;
    var tmp := new char[PATH_MAX];
    var len := Start(cwd, input, tmp);
    NoNul(cwd, input);
    ghost var path := Absolute(cwd, input);
    assert tmp[1..len] == path[1..];
    var result := new char[PATH_MAX];
    result[0] := '/';
    result[1] := NUL;
    var ri;
    ghost var stack;
    ri, stack := Walk(tmp, len, result);
    FinalShown(result[..ri], stack);
    if ri > 1 && result[ri - 1] == '/' {
      ri := ri - 1;
      ghost var kept := result[..ri];
      result[ri] := NUL;
      assert result[..ri] == kept;
    }
    out := result[..ri];
  }

  lemma FinalShown(r: string, stack: seq<string>)
    requires Shown(r, stack) && AllProper(stack)
    ensures Render(stack) == if |r| > 1 && r[|r| - 1] == '/' then r[..|r| - 1] else r
  {
    if stack != [] {
      LastOfRender(stack);
    }
  }

  lemma WalkOne(stack: seq<string>, s: string)
    requires s != ""
    ensures Steps(stack, Split(s)) == Steps(Step(stack, Head(s)), Split(Tail(s)))
  {
    assert Split(s)[1..] == Split(Tail(s));
  }

  lemma NoNul(cwd: string, input: string)
    requires cwd != "" && cwd[0] == '/' && NUL !in cwd && NUL !in input
    ensures NUL !in Absolute(cwd, input) && Absolute(cwd, input) != ""
  {}
}
