/**
 Path resolution: the in-place normaliser against a stack of components, and the choice of the mount.
 */
module Paths {

  const SLASH: char := '/'

  // ----- components -----

  predicate NoSlash(c: string) {
    forall k | 0 <= k < |c| :: c[k] != SLASH
  }

  /** What a component of a normalised path is. */
  predicate Clean(c: string) {
    c != "" && c != "." && c != ".." && NoSlash(c)
  }

  predicate AllClean(cs: seq<string>) {
    forall k | 0 <= k < |cs| :: Clean(cs[k])
  }

  /** The number of characters before the first slash. */
  function TokenLen(p: string): (n: nat)
    ensures n <= |p| && (n < |p| ==> p[n] == SLASH) && forall k | 0 <= k < n :: p[k] != SLASH
  {
    if p == "" || p[0] == SLASH then 0 else 1 + TokenLen(p[1..])
  }

  /** The nonempty parts between slashes. */
  function Components(p: string): (cs: seq<string>)
    ensures forall k | 0 <= k < |cs| :: cs[k] != "" && NoSlash(cs[k])
    decreases |p|
  {
    if p == "" then []
    else if p[0] == SLASH then Components(p[1..])
    else [p[..TokenLen(p)]] + Components(p[TokenLen(p)..])
  }

  function Pop(stack: seq<string>): seq<string> {
    if stack == [] then [] else stack[..|stack| - 1]
  }

  /** '.' is skipped, '..' pops (nothing at the root), any other component is pushed. */
  function Push(stack: seq<string>, c: string): seq<string> {
    if c == "." then stack else if c == ".." then Pop(stack) else stack + [c]
  }

  function Fold(stack: seq<string>, cs: seq<string>): seq<string>
    decreases |cs|
  {
    if cs == [] then stack else Fold(Push(stack, cs[0]), cs[1..])
  }

  /** "/a/b/c" */
  function Body(stack: seq<string>): (s: string)
    ensures s == "" || s[0] == SLASH
  {
    if stack == [] then "" else Body(stack[..|stack| - 1]) + "/" + stack[|stack| - 1]
  }

  /** The same, with "/" for the root. */
  function Render(stack: seq<string>): string {
    if stack == [] then "/" else Body(stack)
  }

  /** The normal form of an absolute path. */
  function Normal(p: string): string {
    Render(Fold([], Components(p)))
  }

  /** The path made absolute against the current directory. */
  function Absolute(cwd: string, input: string): string
    requires cwd != ""
  {
    if input != "" && input[0] == SLASH then input
    else if cwd[|cwd| - 1] != SLASH then cwd + "/" + input
    else cwd + input
  }

  // ----- properties -----

  lemma {:induction false} FoldClean(stack: seq<string>, cs: seq<string>)
    requires AllClean(stack) && forall k | 0 <= k < |cs| :: cs[k] != "" && NoSlash(cs[k])
    ensures AllClean(Fold(stack, cs))
    decreases |cs|
  {
    if cs != [] {
      FoldClean(Push(stack, cs[0]), cs[1..]);
    }
  }

  lemma {:induction false} FoldConcat(stack: seq<string>, a: seq<string>, b: seq<string>)
    ensures Fold(stack, a + b) == Fold(Fold(stack, a), b)
    decreases |a|
  {
    if a == [] {
      assert a + b == b;
    } else {
      assert (a + b)[1..] == a[1..] + b;
      FoldConcat(Push(stack, a[0]), a[1..], b);
    }
  }

  /** Clean components are all pushed. */
  lemma {:induction false} FoldKeeps(stack: seq<string>, cs: seq<string>)
    requires AllClean(cs)
    ensures Fold(stack, cs) == stack + cs
    decreases |cs|
  {
    if cs != [] {
      FoldKeeps(stack + [cs[0]], cs[1..]);
      assert stack + [cs[0]] + cs[1..] == stack + cs;
    }
  }

  lemma {:induction false} BodyFront(stack: seq<string>)
    requires stack != []
    ensures Body(stack) == "/" + stack[0] + Body(stack[1..])
  {
    var n := |stack| - 1;
    if n > 0 {
      BodyFront(stack[..n]);
      assert stack[..n][1..] == stack[1..][..n - 1];
      var t := stack[1..];
      assert Body(t) == Body(t[..n - 1]) + "/" + t[n - 1];
      BodyAssoc("/" + stack[0], Body(t[..n - 1]), t[n - 1]);
    } else {
      assert stack[..0] == [] && stack[1..] == [];
    }
  }

  lemma BodyAssoc(a: string, b: string, c: string)
    ensures a + b + "/" + c == a + (b + "/" + c)
  {
  }

  lemma {:induction false} TokenLenIs(c: string, rest: string)
    requires NoSlash(c) && (rest == "" || rest[0] == SLASH)
    ensures TokenLen(c + rest) == |c|
    decreases |c|
  {
    if c == "" {
      assert c + rest == rest;
    } else {
      assert (c + rest)[1..] == c[1..] + rest;
      TokenLenIs(c[1..], rest);
    }
  }

  lemma ComponentsCons(c: string, rest: string)
    requires c != "" && NoSlash(c) && (rest == "" || rest[0] == SLASH)
    ensures Components("/" + c + rest) == [c] + Components(rest)
  {
    hide TokenLen, Components;
    assert "/" + c + rest == "/" + (c + rest);
    ComponentsSlash(c + rest);
    ComponentsCut(c, rest);
  }

  /** Splitting a rendered stack gives the stack back. */
  lemma {:induction false} ComponentsRender(stack: seq<string>)
    requires forall k | 0 <= k < |stack| :: stack[k] != "" && NoSlash(stack[k])
    ensures Components(Body(stack)) == stack
    decreases |stack|
  {
    hide Components, Body;
    if stack == [] {
      BodyNone();
    } else {
      BodyFront(stack);
      ComponentsCons(stack[0], Body(stack[1..]));
      ComponentsRender(stack[1..]);
      assert [stack[0]] + stack[1..] == stack;
    }
  }

  lemma BodyNone()
    ensures Body([]) == "" && Components("") == [] && Components("/") == []
  {
    assert "/"[1..] == "";
  }

  lemma RenderSplits(stack: seq<string>)
    requires AllClean(stack)
    ensures Components(Render(stack)) == stack
  {
    hide Components, Body;
    BodyNone();
    ComponentsRender(stack);
  }

  /** The normal form has only clean components: absolute, no empty, '.' or '..' part, no trailing slash but at the root. */
  lemma NormalShape(p: string)
    ensures AllClean(Components(Normal(p))) && Normal(p) == Render(Components(Normal(p)))
    ensures |Normal(p)| > 0 && Normal(p)[0] == SLASH && (|Normal(p)| > 1 ==> Normal(p)[|Normal(p)| - 1] != SLASH)
  {
    hide Components;
    var s := Fold([], Components(p));
    FoldClean([], Components(p));
    RenderSplits(s);
    if s != [] {
      assert Clean(s[|s| - 1]);
    }
  }

  lemma Idempotent(p: string)
    ensures Normal(Normal(p)) == Normal(p)
  {
    hide Components, Render;
    FoldClean([], Components(p));
    RenderSplits(Fold([], Components(p)));
    FoldKeeps([], Fold([], Components(p)));
    assert [] + Fold([], Components(p)) == Fold([], Components(p));
  }

  lemma ComponentsSlash(p: string)
    ensures Components("/" + p) == Components(p)
  {
    assert ("/" + p)[1..] == p;
  }

  lemma ComponentsCut(c: string, rest: string)
    requires c != "" && NoSlash(c) && (rest == "" || rest[0] == SLASH)
    ensures Components(c + rest) == [c] + Components(rest)
  {
    hide TokenLen;
    TokenLenIs(c, rest);
    assert (c + rest)[..|c|] == c && (c + rest)[|c|..] == rest;
  }

  lemma {:induction false} ComponentsConcat(a: string, b: string)
    ensures Components(a + "/" + b) == Components(a) + Components(b)
    decreases |a|
  {
    hide TokenLen, Components;
    if a == "" {
      BodyNone();
      ComponentsSlash(b);
      assert a + "/" + b == "/" + b;
    } else if a[0] == SLASH {
      ComponentsConcat(a[1..], b);
      assert a == "/" + a[1..] && a + "/" + b == "/" + (a[1..] + "/" + b);
      ComponentsSlash(a[1..]);
      ComponentsSlash(a[1..] + "/" + b);
    } else {
      var n := TokenLen(a);
      ComponentsConcat(a[n..], b);
      ComponentsCut(a[..n], a[n..]);
      ComponentsCut(a[..n], a[n..] + "/" + b);
      assert a == a[..n] + a[n..] && a + "/" + b == a[..n] + (a[n..] + "/" + b);
    }
  }

  /** A relative path is folded onto the components of the current directory; an absolute one onto nothing. */
  lemma ResolveMeans(dir: seq<string>, input: string)
    requires AllClean(dir)
    ensures Normal(Absolute(Render(dir), input)) ==
      Render(Fold(if input != "" && input[0] == SLASH then [] else dir, Components(input)))
  {
    hide Components, Fold;
    var cwd := Render(dir);
    RenderSplits(dir);
    if !(input != "" && input[0] == SLASH) {
      if cwd[|cwd| - 1] != SLASH {
        ComponentsConcat(cwd, input);
      } else {
        RootOnly(dir);
        assert cwd + input == "" + "/" + input;
        ComponentsConcat("", input);
        BodyNone();
      }
      FoldConcat([], dir, Components(input));
      FoldKeeps([], dir);
      assert [] + dir == dir;
    }
  }

  lemma OneComponent(c: string)
    requires c != "" && NoSlash(c)
    ensures Components(c) == [c]
  {
    TokenLenIs(c, "");
    assert c + "" == c && c[|c|..] == "";
    BodyNone();
  }

  lemma FoldLast(p: string, c: string)
    requires c != "" && NoSlash(c)
    ensures Fold([], Components(p + "/" + c)) == Push(Fold([], Components(p)), c)
  {
    hide Components, Push;
    OneComponent(c);
    ComponentsConcat(p, c);
    FoldConcat([], Components(p), [c]);
    FoldOne(Fold([], Components(p)), c);
  }

  lemma FoldOne(stack: seq<string>, c: string)
    ensures Fold(stack, [c]) == Push(stack, c)
  {
    FoldNone(Push(stack, c));
    assert [c][1..] == [];
  }

  /** Behind any path: a clean name is the last part of the normal form, '.' adds nothing, '..' takes the name back. */
  lemma StepMeans(p: string, c: string)
    requires Clean(c)
    ensures Normal(p + "/" + c) == (if Normal(p) == "/" then "" else Normal(p)) + "/" + c
    ensures Normal(p + "/.") == Normal(p)
    ensures Normal(p + "/" + c + "/..") == Normal(p)
  {
    hide Components, Fold;
    var s := Fold([], Components(p));
    FoldLast(p, c);
    FoldLast(p, ".");
    FoldLast(p + "/" + c, "..");
    assert p + "/." == p + "/" + "." && p + "/" + c + "/.." == p + "/" + c + "/" + "..";
    assert (s + [c])[..|s|] == s;
    BodyNext(s, c);
    FoldClean([], Components(p));
    SlashOnly(s);
  }

  lemma SlashOnly(s: seq<string>)
    requires AllClean(s)
    ensures Render(s) == "/" <==> s == []
  {
    if s != [] {
      assert Clean(s[|s| - 1]);
    }
  }

  /** The same on paths in normal form: '..' leaves the parent, at the root it leaves the root. */
  lemma DotsMean(s: seq<string>, c: string)
    requires AllClean(s) && Clean(c)
    ensures Normal(Body(s + [c]) + "/..") == Render(s) && Normal(Body(s) + "/.") == Render(s)
    ensures Normal("/..") == "/"
  {
    hide Components, Fold, Body;
    BodyNext(s, c);
    StepMeans(Body(s), c);
    ComponentsRender(s);
    FoldKeeps([], s);
    assert [] + s == s;
    FoldLast("", "..");
    assert "/.." == "" + "/" + "..";
    BodyNone();
    FoldNone([]);
  }

  lemma BodyNext(s: seq<string>, c: string)
    ensures Body(s + [c]) == Body(s) + "/" + c
  {
    assert (s + [c])[..|s|] == s;
  }

  lemma RootOnly(dir: seq<string>)
    requires AllClean(dir)
    ensures |Render(dir)| > 0 && (dir == [] || Render(dir)[|Render(dir)| - 1] != SLASH)
  {
    if dir != [] {
      assert Clean(dir[|dir| - 1]);
    }
  }

  // ----- the normaliser in place -----

  /** The length of "/a/b/" is bounded by the characters consumed. */
  method Normalize(p: string, temp: array<char>) returns (n: nat)
    requires |p| < 256 && p != "" && p[0] == SLASH && temp.Length == 256
    requires forall k | 0 <= k < |Components(p)| :: |Components(p)[k]| < 64
    modifies temp
    ensures n <= 255 && temp[..n] == Normal(p)
  {
    hide Components, Body, TokenLen, Clean, Fold, Push;
    temp[0] := '/';
    var t, i: nat := 1, 0;
    ghost var stack: seq<string> := [];
    BodyNone();
    while i < |p|
      invariant i <= |p| && 1 <= t <= 256 && t <= i + 1 && (i > 0 && p[i - 1] == '/' ==> t <= i)
      invariant i < |p| && p[i] != '/' ==> i > 0 && p[i - 1] == '/'
      invariant temp[..t] == Body(stack) + "/" && AllClean(stack)
      invariant Fold([], Components(p)) == Fold(stack, Components(p[i..]))
    {
      if p[i] == '/' {
        SkipSlash(p, i);
        i := i + 1;
        continue;
      }
      var token, j := "", i;
      while j < |p| && p[j] != '/'
        invariant i <= j <= |p| && token == p[i..j] && NoSlash(token)
      {
        token := token + [p[j]];
        j := j + 1;
      }
      TakeToken(p, i, j);
      FoldStep(stack, token, Components(p[j..]));
      t := UseToken(temp, t, stack, token);
      stack := Push(stack, token);
      i := j;
    }
    EmptyRest(p);
    RenderLen(stack);
    FoldNone(stack);
    n := if t > 1 then t - 1 else 1;
  }

  /** What the buffer holds after one component. */
  method UseToken(temp: array<char>, t0: nat, ghost stack: seq<string>, token: string) returns (t: nat)
    requires 1 <= t0 && t0 + |token| + 1 <= temp.Length && temp[..t0] == Body(stack) + "/" && AllClean(stack)
    modifies temp
    ensures 1 <= t <= t0 + |token| + 1 && temp[..t] == Body(Push(stack, token)) + "/"
  {
    hide Body, Clean;
    t := t0;
    if token == ".." {
      t := PopToken(temp, t0, stack);
    } else if token != "." {
      t := PushToken(temp, t0, stack, token);
    }
  }

  lemma FoldNone(stack: seq<string>)
    ensures Fold(stack, []) == stack
  {
  }

  lemma FoldStep(stack: seq<string>, c: string, rest: seq<string>)
    requires AllClean(stack) && c != "" && NoSlash(c)
    ensures Fold(stack, [c] + rest) == Fold(Push(stack, c), rest) && AllClean(Push(stack, c))
  {
    assert ([c] + rest)[1..] == rest;
  }

  lemma EmptyRest(p: string)
    ensures p[|p|..] == "" && Components("") == []
  {
    BodyNone();
  }

  lemma RenderLen(stack: seq<string>)
    requires AllClean(stack)
    ensures |Body(stack)| == 0 <==> stack == []
    ensures |Body(stack)| > 0 ==> Render(stack) == Body(stack)
  {
  }

  lemma SkipSlash(p: string, i: nat)
    requires i < |p| && p[i] == SLASH
    ensures Components(p[i..]) == Components(p[i + 1..])
  {
    assert p[i..][1..] == p[i + 1..];
  }

  lemma TakeToken(p: string, i: nat, j: nat)
    requires i < j <= |p| && NoSlash(p[i..j]) && (j < |p| ==> p[j] == SLASH)
    ensures Components(p[i..]) == [p[i..j]] + Components(p[j..])
  {
    assert p[i..] == p[i..j] + p[j..];
    TokenLenIs(p[i..j], p[j..]);
    assert p[i..][0] == p[i..j][0];
    assert p[i..][..j - i] == p[i..j] && p[i..][j - i..] == p[j..];
  }

  method PushToken(temp: array<char>, t0: nat, ghost stack: seq<string>, token: string) returns (t: nat)
    requires t0 + |token| + 1 <= temp.Length && temp[..t0] == Body(stack) + "/"
    modifies temp
    ensures t == t0 + |token| + 1 && temp[..t] == Body(stack + [token]) + "/"
  {
    var k := 0;
    while k < |token|
      invariant k <= |token| && temp[..t0 + k] == Body(stack) + "/" + token[..k]
    {
      temp[t0 + k] := token[k];
      assert token[..k + 1] == token[..k] + [token[k]];
      k := k + 1;
    }
    assert token[..k] == token;
    temp[t0 + k] := '/';
    t := t0 + |token| + 1;
    assert (stack + [token])[..|stack|] == stack;
  }

  /** Step back over the last component. */
  method PopToken(temp: array<char>, t0: nat, ghost stack: seq<string>) returns (t: nat)
    requires 1 <= t0 <= temp.Length && temp[..t0] == Body(stack) + "/" && AllClean(stack)
    ensures 1 <= t <= t0 && temp[..t] == Body(Pop(stack)) + "/"
  {
    hide Body, Clean;
    t := t0;
    ghost var text := temp[..t0];
    PopText(stack);
    if t > 1 {
      t := t - 1;
      ghost var low := |Body(Pop(stack))| + 1;
      while t > 0 && temp[t - 1] != '/'
        invariant low <= t < t0
        decreases t
      {
        assert temp[t - 1] == text[t - 1];
        t := t - 1;
      }
      assert temp[t - 1] == text[t - 1];
      assert temp[..t] == text[..t];
    }
  }

  /** Before the last component stands a slash, in it stands none. */
  lemma PopText(stack: seq<string>)
    requires AllClean(stack)
    ensures stack == [] ==> |Body(stack)| == 0 && Pop(stack) == stack
    ensures stack != [] ==> var b := Body(Pop(stack)) + "/";
      |b| < |Body(stack)| + 1 && (Body(stack) + "/")[..|b|] == b && forall k | |b| <= k < |Body(stack)| :: (Body(stack) + "/")[k] != SLASH
  {
    if stack != [] {
      assert Clean(stack[|stack| - 1]);
    }
  }

  /** fs_resolve_path. */
  method ResolvePath(cwd: string, input: string, temp: array<char>) returns (n: nat)
    requires cwd != "" && cwd[0] == SLASH && |Absolute(cwd, input)| < 256 && temp.Length == 256
    requires forall k | 0 <= k < |Components(Absolute(cwd, input))| :: |Components(Absolute(cwd, input))[k]| < 64
    modifies temp
    ensures n <= 255 && temp[..n] == Normal(Absolute(cwd, input))
  {
    hide Components;
    var p := input;
    if input == "" || input[0] != '/' {
      p := cwd;
      if p[|p| - 1] != '/' {
        p := p + "/";
      }
      p := p + input;
    }
    n := Normalize(p, temp);
  }

  // ----- mounts -----

  datatype Mount = Mount(used: bool, prefix: string, driver: nat)

  predicate Matches(path: string, prefix: string) {
    prefix <= path && (|path| == |prefix| || path[|prefix|] == SLASH || |prefix| == 1)
  }

  /** On normal paths: the mount's components are the first components of the path. */
  lemma MatchesIff(path: seq<string>, mount: seq<string>)
    requires AllClean(path) && AllClean(mount)
    ensures Matches(Render(path), Render(mount)) <==> mount <= path
  {
    hide Body;
    BodyNone();
    if mount == [] {
      RenderHead(path);
    } else {
      BodyLong(mount);
      BodyPrefixIff(path, mount);
      RenderHead(path);
      RenderHead(mount);
      RenderLen(path);
    }
  }

  lemma BodyLong(stack: seq<string>)
    requires AllClean(stack) && stack != []
    ensures |Body(stack)| > 1
  {
    assert Clean(stack[|stack| - 1]);
  }

  lemma RenderHead(stack: seq<string>)
    ensures |Render(stack)| > 0 && Render(stack)[0] == SLASH && "/" <= Render(stack)
  {
  }

  predicate Ends(text: string, part: string) {
    part <= text && (|text| == |part| || text[|part|] == SLASH)
  }

  lemma {:induction false} BodyPrefixIff(path: seq<string>, mount: seq<string>)
    requires AllClean(path) && AllClean(mount)
    ensures Ends(Body(path), Body(mount)) <==> mount <= path
    decreases |mount|
  {
    hide Body, Clean;
    BodyNone();
    if mount != [] && path != [] {
      var c, m, d, p := mount[0], mount[1..], path[0], path[1..];
      BodyFront(mount);
      BodyFront(path);
      assert mount == [c] + m && path == [d] + p;
      CleanIs(c);
      CleanIs(d);
      HeadsDiffer(c, Body(m), d, Body(p));
      BodyPrefixIff(p, m);
      assert mount <= path <==> c == d && m <= p;
    } else if mount != [] {
      BodyFront(mount);
    }
  }

  lemma CleanIs(c: string)
    requires Clean(c)
    ensures c != "" && NoSlash(c)
  {
  }

  /** Texts that start with a component agree up to a boundary only if the components agree. */
  lemma HeadsDiffer(c: string, x: string, d: string, y: string)
    requires NoSlash(c) && NoSlash(d) && (x == "" || x[0] == SLASH) && (y == "" || y[0] == SLASH)
    ensures Ends("/" + d + y, "/" + c + x) <==> c == d && Ends(y, x)
  {
    hide Ends, TokenLen;
    EndsSlash(c + x, d + y);
    assert "/" + (c + x) == "/" + c + x && "/" + (d + y) == "/" + d + y;
    if Ends(d + y, c + x) {
      TokenLenEnds(d + y, c + x);
      TokenLenIs(c, x);
      TokenLenIs(d, y);
    }
    if |c| == |d| {
      EndsSplit(c, x, d, y);
    }
  }

  lemma EndsSlash(a: string, b: string)
    ensures Ends("/" + b, "/" + a) <==> Ends(b, a)
  {
    if Ends(b, a) {
      assert "/" + b == ("/" + a) + b[|a|..];
    }
    if Ends("/" + b, "/" + a) {
      assert a == ("/" + a)[1..] == ("/" + b)[1..][..|a|];
    }
  }

  lemma EndsSplit(c: string, x: string, d: string, y: string)
    requires |c| == |d|
    ensures Ends(d + y, c + x) <==> c == d && Ends(y, x)
  {
    if c + x <= d + y {
      assert c == (c + x)[..|c|] == (d + y)[..|c|] == d;
      assert x == (c + x)[|c|..] == (d + y)[|c|..][..|x|] == y[..|x|];
    }
    if c == d && x <= y {
      assert d + y == (c + x) + y[|x|..];
    }
  }

  lemma {:induction false} TokenLenEnds(b: string, a: string)
    requires Ends(b, a)
    ensures TokenLen(b) == TokenLen(a)
  {
    if a != "" && a[0] != SLASH {
      assert a[1..] == b[1..][..|a| - 1];
      TokenLenEnds(b[1..], a[1..]);
    }
  }

  /** The relative path handed to the driver. */
  function Relative(path: string, len: nat): string
    requires len <= |path|
  {
    var r := path[len..];
    if r != "" && r[0] == SLASH then r[1..] else r
  }

  /** It names the components below the mount. */
  lemma RelativeIs(path: seq<string>, mount: seq<string>)
    requires AllClean(path) && AllClean(mount) && mount <= path
    ensures |Render(mount)| <= |Render(path)| && Components(Relative(Render(path), |Render(mount)|)) == path[|mount|..]
  {
    hide Components, Body;
    var rest := path[|mount|..];
    assert path == mount + rest;
    BodyConcat(mount, rest);
    assert AllClean(rest);
    ComponentsRender(rest);
    BodyNone();
    SkipLead(Body(rest));
    if mount == [] {
      assert rest == path && Body([]) + Body(rest) == Body(rest);
      RenderHead(path);
      RenderLen(path);
      if path != [] {
        assert Render(path) == Body(path) && Render([]) == "/";
        assert Body(path)[0] == SLASH;
        NoDoubleSlash(path);
      }
    } else {
      RenderLen(path);
      RenderLen(mount);
      assert Render(path)[|Render(mount)|..] == Body(rest);
    }
  }

  lemma NoDoubleSlash(path: seq<string>)
    requires AllClean(path) && path != []
    ensures |Body(path)| > 1 && Body(path)[1] != SLASH
  {
    hide Body;
    BodyFront(path);
    assert Clean(path[0]);
    assert Body(path)[1] == path[0][0];
  }

  lemma SkipLead(p: string)
    ensures p != "" && p[0] == SLASH ==> Components(p[1..]) == Components(p)
  {
  }

  lemma {:induction false} BodyConcat(a: seq<string>, b: seq<string>)
    ensures Body(a + b) == Body(a) + Body(b)
    decreases |b|
  {
    if b == [] {
      assert a + b == a;
    } else {
      var n := |b| - 1;
      assert (a + b)[..|a + b| - 1] == a + b[..n];
      BodyConcat(a, b[..n]);
      BodyAssoc(Body(a), Body(b[..n]), b[n]);
    }
  }

  predicate Candidate(mounts: seq<Mount>, path: string, i: int) {
    0 <= i < |mounts| && mounts[i].used && Matches(path, mounts[i].prefix)
  }

  /** fs_get_driver: the matching mount with the longest prefix, the first of equals; -1 if none matches. */
  method GetDriver(mounts: seq<Mount>, path: string) returns (best: int, relative: string)
    ensures best == -1 <==> forall i :: !Candidate(mounts, path, i)
    ensures best != -1 ==>
      && Candidate(mounts, path, best) && relative == Relative(path, |mounts[best].prefix|)
      && forall i | Candidate(mounts, path, i) :: |mounts[i].prefix| < |mounts[best].prefix| || (|mounts[i].prefix| == |mounts[best].prefix| && best <= i)
  {
    best, relative := -1, "";
    var bestLen := -1;
    var i := 0;
    while i < |mounts|
      invariant 0 <= i <= |mounts|
      invariant best == -1 ==> bestLen == -1 && forall k | k < i :: !Candidate(mounts, path, k)
      invariant best != -1 ==> best < i && Candidate(mounts, path, best) && bestLen == |mounts[best].prefix|
      invariant best != -1 ==> forall k | k < i && Candidate(mounts, path, k) :: |mounts[k].prefix| < bestLen || (|mounts[k].prefix| == bestLen && best <= k)
    {
      if mounts[i].used {
        var prefix := mounts[i].prefix;
        var len := |prefix|;
        if len <= |path| && path[..len] == prefix {
          if len == |path| || path[len] == '/' || len == 1 {
            if len > bestLen {
              best, bestLen := i, len;
            }
          }
        }
      }
      i := i + 1;
    }
    if best != -1 {
      relative := path[bestLen..];
      if relative != "" && relative[0] == '/' {
        relative := relative[1..];
      }
    }
  }
}
