/**
 Path canonicalisation of the LogCabin client: splitting a path at slashes and
 ironing out "." and ".." by erasing components in place.
 */
module PathNames {

  datatype Result = Ok(canonical: string) | RelativeWorkingDirectory | AboveRoot

  // --------------------------------------------------------------------- splitting

  /** The components of path, when word is the beginning of the first of them. */
  function SplitFrom(word: string, path: string): seq<string>
    decreases |path|
  {
    if path == [] then Flush(word)
    else if path[0] == '/' then Flush(word) + SplitFrom([], path[1..])
    else SplitFrom(word + [path[0]], path[1..])
  }

  function Flush(word: string): seq<string> { if word == [] then [] else [word] }

  function Split(path: string): seq<string> { SplitFrom([], path) }

  method SplitInto(path: string, components: seq<string>) returns (r: seq<string>)
    ensures r == components + Split(path)
  {
    var word: string := [];
    r := components;
    for i := 0 to |path|
      invariant r + SplitFrom(word, path[i..]) == components + Split(path)
    {
      if path[i] == '/' {
        if word != [] {
          r := r + [word];
          word := [];
        }
      } else {
        word := word + [path[i]];
      }
    }
    if word != [] {
      r := r + [word];
    }
  }

  predicate Component(c: string) { c != [] && '/' !in c }

  predicate Components(cs: seq<string>) { forall i :: 0 <= i < |cs| ==> Component(cs[i]) }

  lemma {:induction false} SplitGivesComponents(word: string, path: string)
    requires '/' !in word
    ensures Components(SplitFrom(word, path))
    decreases |path|
  {
    if path != [] {
      if path[0] == '/' {
        SplitGivesComponents([], path[1..]);
      } else {
        SplitGivesComponents(word + [path[0]], path[1..]);
      }
    }
  }

  lemma {:induction false} SplitWord(word: string, rest: string, path: string)
    requires '/' !in rest
    ensures SplitFrom(word, rest + path) == SplitFrom(word + rest, path)
    decreases |rest|
  {
    if rest == [] {
      assert rest + path == path && word + rest == word;
    } else {
      assert (rest + path)[1..] == rest[1..] + path;
      SplitWord(word + [rest[0]], rest[1..], path);
      assert word + [rest[0]] + rest[1..] == word + rest;
    }
  }

  /** A slash separates: joining two paths joins their components. */
  lemma {:induction false} SplitJoin(word: string, a: string, b: string)
    ensures SplitFrom(word, a + "/" + b) == SplitFrom(word, a) + Split(b)
    decreases |a|
  {
    if a == [] {
      assert (a + "/" + b)[1..] == b;
    } else {
      assert (a + "/" + b)[1..] == a[1..] + "/" + b;
      if a[0] == '/' {
        SplitJoin([], a[1..], b);
      } else {
        SplitJoin(word + [a[0]], a[1..], b);
      }
    }
  }

  // ------------------------------------------------------------------- "." and ".."

  datatype Stack = Fail | Stack(names: seq<string>)

  /** The reference: walk the components with the directories entered so far on a stack. */
  function Walk(stack: seq<string>, cs: seq<string>): Stack
    decreases |cs|
  {
    if cs == [] then Stack(stack)
    else if cs[0] == ".." then
      if stack == [] then Fail else Walk(stack[..|stack| - 1], cs[1..])
    else if cs[0] == "." then Walk(stack, cs[1..])
    else Walk(stack + [cs[0]], cs[1..])
  }

  predicate Name(c: string) { c != "." && c != ".." }

  predicate Names(cs: seq<string>) { forall i :: 0 <= i < |cs| ==> Name(cs[i]) }

  /** The loop of canonicalize, erasing in place, computes the walk. */
  method IronOut(components: seq<string>) returns (ok: bool, r: seq<string>)
    ensures if ok then Walk([], components) == Stack(r) else Walk([], components) == Fail
  {
    r := components;
    var i := 0;
    while i < |r|
      invariant 0 <= i <= |r|
      invariant Walk(r[..i], r[i..]) == Walk([], components)
      decreases |r| - i
    {
      assert r[i..][0] == r[i] && r[i..][1..] == r[i + 1..];
      if r[i] == ".." {
        if i == 0 { return false, []; }
        var r' := r[..i - 1] + r[i + 1..];
        assert r'[..i - 1] == r[..i][..i - 1] && r'[i - 1..] == r[i + 1..];
        r, i := r', i - 1;
      } else if r[i] == "." {
        var r' := r[..i] + r[i + 1..];
        assert r'[..i] == r[..i] && r'[i..] == r[i + 1..];
        r := r';
      } else {
        assert r[..i] + [r[i]] == r[..i + 1];
        i := i + 1;
      }
    }
    assert r[..i] == r && r[i..] == [];
    ok := true;
  }

  function Ups(cs: seq<string>): nat {
    if cs == [] then 0 else (if cs[0] == ".." then 1 else 0) + Ups(cs[1..])
  }

  function Downs(cs: seq<string>): nat {
    if cs == [] then 0 else (if Name(cs[0]) then 1 else 0) + Downs(cs[1..])
  }

  /** Somewhere along the way, from the given depth, more directories were left than entered. */
  ghost predicate ClimbsAbove(depth: nat, cs: seq<string>) {
    exists k :: 0 <= k <= |cs| && ClimbsAt(depth, cs, k)
  }

  ghost predicate ClimbsAt(depth: nat, cs: seq<string>, k: nat)
    requires k <= |cs|
  {
    depth + Downs(cs[..k]) < Ups(cs[..k])
  }

  lemma ClimbsAtNext(depth: nat, cs: seq<string>, k: nat)
    requires cs != [] && 0 < k <= |cs|
    ensures Ups(cs[..k]) == (if cs[0] == ".." then 1 else 0) + Ups(cs[1..][..k - 1])
    ensures Downs(cs[..k]) == (if Name(cs[0]) then 1 else 0) + Downs(cs[1..][..k - 1])
  {
    assert cs[..k][1..] == cs[1..][..k - 1];
  }

  /** The walk fails exactly when some prefix of the path climbs above the root. */
  lemma {:induction false} WalkFails(stack: seq<string>, cs: seq<string>)
    ensures Walk(stack, cs).Fail? <==> ClimbsAbove(|stack|, cs)
    decreases |cs|
  {
    if cs == [] {
      assert forall k :: 0 <= k <= |cs| ==> cs[..k] == [];
    } else if cs[0] == ".." && stack == [] {
      ClimbsAtNext(0, cs, 1);
      assert cs[1..][..0] == [] && Ups([]) == 0 && Downs([]) == 0;
      assert !Name("..");
      assert ClimbsAt(0, cs, 1);
    } else {
      var stack' := if cs[0] == ".." then stack[..|stack| - 1] else if cs[0] == "." then stack else stack + [cs[0]];
      WalkFails(stack', cs[1..]);
      forall k | 0 < k <= |cs| ensures ClimbsAt(|stack|, cs, k) <==> ClimbsAt(|stack'|, cs[1..], k - 1) {
        ClimbsAtNext(|stack|, cs, k);
      }
      assert cs[..0] == [];
      if ClimbsAbove(|stack'|, cs[1..]) {
        var k :| 0 <= k <= |cs[1..]| && ClimbsAt(|stack'|, cs[1..], k);
        assert ClimbsAt(|stack|, cs, k + 1);
      }
      if ClimbsAbove(|stack|, cs) {
        var k :| 0 <= k <= |cs| && ClimbsAt(|stack|, cs, k);
        assert k != 0;
        assert 0 <= k - 1 <= |cs[1..]| && ClimbsAt(|stack'|, cs[1..], k - 1);
      }
    }
  }

  /** Entering a directory and leaving it at once is staying, and so is ".". */
  lemma WalkCancels(stack: seq<string>, c: string, rest: seq<string>)
    ensures Name(c) ==> Walk(stack, [c, ".."] + rest) == Walk(stack, rest)
    ensures Walk(stack, ["."] + rest) == Walk(stack, rest)
  {
    var up := [".."] + rest;
    assert [c, ".."] + rest == [c] + up;
    assert ([c] + up)[1..] == up && up[1..] == rest && (["."] + rest)[1..] == rest;
    assert (stack + [c])[..|stack|] == stack;
  }

  lemma {:induction false} WalkJoin(stack: seq<string>, a: seq<string>, b: seq<string>)
    ensures Walk(stack, a + b) == (match Walk(stack, a) case Fail => Fail case Stack(names) => Walk(names, b))
    decreases |a|
  {
    if a == [] {
      assert a + b == b;
    } else {
      assert (a + b)[1..] == a[1..] + b;
      if a[0] == ".." {
        if stack != [] { WalkJoin(stack[..|stack| - 1], a[1..], b); }
      } else if a[0] == "." {
        WalkJoin(stack, a[1..], b);
      } else {
        WalkJoin(stack + [a[0]], a[1..], b);
      }
    }
  }

  /** Anywhere in a path, a name followed by ".." may be taken out, and so may ".". */
  lemma WalkRewrites(a: seq<string>, c: string, b: seq<string>)
    ensures Name(c) ==> Walk([], a + [c, ".."] + b) == Walk([], a + b)
    ensures Walk([], a + ["."] + b) == Walk([], a + b)
  {
    assert a + [c, ".."] + b == a + ([c, ".."] + b) && a + ["."] + b == a + (["."] + b);
    WalkJoin([], a, [c, ".."] + b);
    WalkJoin([], a, ["."] + b);
    WalkJoin([], a, b);
    if Walk([], a).Stack? { WalkCancels(Walk([], a).names, c, b); }
  }

  lemma {:induction false} WalkGivesNames(stack: seq<string>, cs: seq<string>)
    requires Components(stack) && Names(stack) && Components(cs) && Walk(stack, cs).Stack?
    ensures Components(Walk(stack, cs).names) && Names(Walk(stack, cs).names)
    decreases |cs|
  {
    if cs != [] {
      var stack' := if cs[0] == ".." then stack[..|stack| - 1] else if cs[0] == "." then stack else stack + [cs[0]];
      WalkGivesNames(stack', cs[1..]);
    }
  }

  lemma {:induction false} WalkOfNames(stack: seq<string>, cs: seq<string>)
    requires Names(cs)
    ensures Walk(stack, cs) == Stack(stack + cs)
    decreases |cs|
  {
    if cs == [] {
      assert stack + cs == stack;
    } else {
      WalkOfNames(stack + [cs[0]], cs[1..]);
      assert stack + [cs[0]] + cs[1..] == stack + cs;
    }
  }

  // ----------------------------------------------------------------- canonicalize

  function JoinNames(cs: seq<string>): string {
    if cs == [] then [] else "/" + cs[0] + JoinNames(cs[1..])
  }

  function PathOf(names: seq<string>): string {
    if names == [] then "/" else JoinNames(names)
  }

  predicate Absolute(path: string) { path != [] && path[0] == '/' }

  /** The components that canonicalize irons out; an empty path ignores the working directory. */
  function AllComponents(path: string, workingDirectory: string): seq<string> {
    (if path != [] && !Absolute(path) then Split(workingDirectory) else []) + Split(path)
  }

  function Canonicalize(path: string, workingDirectory: string): Result {
    if path != [] && !Absolute(path) && !Absolute(workingDirectory) then RelativeWorkingDirectory
    else
      match Walk([], AllComponents(path, workingDirectory))
      case Fail => AboveRoot
      case Stack(names) => Ok(PathOf(names))
  }

  lemma {:induction false} JoinNamesEnd(cs: seq<string>, c: string)
    ensures JoinNames(cs + [c]) == JoinNames(cs) + "/" + c
    decreases |cs|
  {
    if cs == [] {
      assert (cs + [c])[1..] == [];
      assert JoinNames([]) == [];
    } else {
      assert (cs + [c])[1..] == cs[1..] + [c];
      JoinNamesEnd(cs[1..], c);
      assert "/" + cs[0] + (JoinNames(cs[1..]) + "/" + c) == ("/" + cs[0] + JoinNames(cs[1..])) + "/" + c;
    }
  }

  method CanonicalizePath(path: string, workingDirectory: string) returns (r: Result)
    ensures r == Canonicalize(path, workingDirectory)
  {
    var components: seq<string> := [];
    if path != [] && path[0] != '/' {
      if workingDirectory == [] || workingDirectory[0] != '/' {
        return RelativeWorkingDirectory;
      }
      components := SplitInto(workingDirectory, components);
    }
    components := SplitInto(path, components);
    assert components == AllComponents(path, workingDirectory);
    var ok, names := IronOut(components);
    if !ok { return AboveRoot; }
    if names == [] { return Ok("/"); }
    var canonical := "";
    for i := 0 to |names|
      invariant canonical == JoinNames(names[..i])
    {
      assert names[..i + 1] == names[..i] + [names[i]];
      JoinNamesEnd(names[..i], names[i]);
      canonical := canonical + ("/" + names[i]);
    }
    assert names[..|names|] == names;
    r := Ok(canonical);
  }

  lemma SplitAfterWord(word: string, rest: string)
    requires word != [] && (rest == [] || rest[0] == '/')
    ensures SplitFrom(word, rest) == [word] + Split(rest)
  {
    if rest != [] {
      assert Split(rest) == Flush([]) + SplitFrom([], rest[1..]);
    }
  }

  lemma {:induction false} SplitOfJoinNames(cs: seq<string>)
    requires Components(cs)
    ensures Split(JoinNames(cs)) == cs
    decreases |cs|
  {
    if cs != [] {
      var rest := JoinNames(cs[1..]);
      SplitOfJoinNames(cs[1..]);
      calc {
        Split(JoinNames(cs));
        { assert JoinNames(cs)[1..] == cs[0] + rest; }
        Split(cs[0] + rest);
        { SplitWord([], cs[0], rest); assert [] + cs[0] == cs[0]; }
        SplitFrom(cs[0], rest);
        { SplitAfterWord(cs[0], rest); }
        [cs[0]] + Split(rest);
        cs;
      }
    }
  }

  lemma SplitOfPath(names: seq<string>)
    requires Components(names)
    ensures Split(PathOf(names)) == names && Absolute(PathOf(names))
  {
    if names == [] {
      assert Split("/") == Flush([]) + SplitFrom([], "/"[1..]);
    } else {
      SplitOfJoinNames(names);
    }
  }

  /** A slash, or slash-preceded components none of which is "." or "..". */
  ghost predicate NormalForm(path: string) {
    exists names :: Components(names) && Names(names) && path == PathOf(names)
  }

  /** A result is a normal form, and the normal forms are exactly the paths left alone. */
  lemma CanonicalIsNormal(path: string, workingDirectory: string)
    requires Canonicalize(path, workingDirectory).Ok?
    ensures NormalForm(Canonicalize(path, workingDirectory).canonical)
  {
    SplitGivesComponents([], workingDirectory);
    SplitGivesComponents([], path);
    WalkGivesNames([], AllComponents(path, workingDirectory));
  }

  lemma NormalFormIsFixed(path: string, workingDirectory: string)
    ensures NormalForm(path) ==> Canonicalize(path, workingDirectory) == Ok(path)
    ensures Canonicalize(path, workingDirectory) == Ok(path) ==> NormalForm(path)
  {
    if NormalForm(path) {
      var names :| Components(names) && Names(names) && path == PathOf(names);
      SplitOfPath(names);
      assert AllComponents(path, workingDirectory) == names;
      WalkOfNames([], names);
      assert [] + names == names;
    }
    if Canonicalize(path, workingDirectory) == Ok(path) {
      CanonicalIsNormal(path, workingDirectory);
    }
  }

  /** Canonicalising twice is canonicalising once, whatever the working directories. */
  lemma CanonicalizeIsIdempotent(path: string, workingDirectory: string, other: string)
    requires Canonicalize(path, workingDirectory).Ok?
    ensures var r := Canonicalize(path, workingDirectory); Canonicalize(r.canonical, other) == r
  {
    CanonicalIsNormal(path, workingDirectory);
    NormalFormIsFixed(Canonicalize(path, workingDirectory).canonical, other);
  }

  /** Resolving a relative path against an absolute directory is resolving the two joined. */
  lemma RelativeResolvesAsJoin(path: string, directory: string, other: string)
    requires path != [] && !Absolute(path) && Absolute(directory)
    ensures Canonicalize(path, directory) == Canonicalize(directory + "/" + path, other)
  {
    SplitJoin([], directory, path);
    assert AllComponents(directory + "/" + path, other) == AllComponents(path, directory);
  }

  /** The empty path is the root, whatever the working directory. */
  lemma EmptyPathIsRoot(workingDirectory: string)
    ensures Canonicalize("", workingDirectory) == Ok("/")
  {
    assert AllComponents("", workingDirectory) == [];
  }

  lemma SplitOne(c: string)
    requires Component(c)
    ensures Split(c) == [c]
  {
    SplitWord([], c, []);
    assert c + [] == c && [] + c == c;
  }

  lemma SplitFirst(c: string, b: string)
    requires Component(c)
    ensures Split(c + "/" + b) == [c] + Split(b)
  {
    SplitJoin([], c, b);
    SplitOne(c);
  }

  lemma ResolvesAs(a: string, b: string, workingDirectory: string)
    requires Absolute(a) && Absolute(b) && Walk([], Split(a)) == Walk([], Split(b))
    ensures Canonicalize(a, workingDirectory) == Canonicalize(b, workingDirectory)
  {
    assert [] + Split(a) == Split(a) && [] + Split(b) == Split(b);
  }

  lemma SplitMiddle(a: string, c: string, b: string)
    requires Component(c)
    ensures Split(a + "/" + (c + "/" + b)) == Split(a) + ([c] + Split(b))
  {
    SplitFirst(c, b);
    SplitJoin([], a, c + "/" + b);
  }

  /** In an absolute path, entering a directory and leaving it at once resolves as not entering it. */
  lemma UpCancelsName(a: string, c: string, up: string, b: string, workingDirectory: string)
    requires Absolute(a) && Component(c) && Name(c) && up == ".." + "/" + b
    ensures Canonicalize(a + "/" + (c + "/" + up), workingDirectory) == Canonicalize(a + "/" + b, workingDirectory)
  {
    SplitFirst("..", b);
    SplitMiddle(a, c, up);
    SplitJoin([], a, b);
    WalkRewrites(Split(a), c, Split(b));
    UpAssociates(Split(a), c, Split(b));
    ResolvesAs(a + "/" + (c + "/" + up), a + "/" + b, workingDirectory);
  }

  lemma UpAssociates(a: seq<string>, c: string, b: seq<string>)
    ensures a + ([c] + ([".."] + b)) == a + [c, ".."] + b
    ensures a + ([c] + b) == a + [c] + b
  {
  }

  /** And "." resolves as nothing. */
  lemma DotIsNothing(a: string, b: string, workingDirectory: string)
    requires Absolute(a)
    ensures Canonicalize(a + "/" + ("." + "/" + b), workingDirectory) == Canonicalize(a + "/" + b, workingDirectory)
  {
    SplitMiddle(a, ".", b);
    SplitJoin([], a, b);
    WalkRewrites(Split(a), ".", Split(b));
    UpAssociates(Split(a), ".", Split(b));
    ResolvesAs(a + "/" + ("." + "/" + b), a + "/" + b, workingDirectory);
  }

  /** Exactly when each error is reported. */
  lemma CanonicalizeFails(path: string, workingDirectory: string)
    ensures Canonicalize(path, workingDirectory).RelativeWorkingDirectory? <==>
              path != [] && !Absolute(path) && !Absolute(workingDirectory)
    ensures Canonicalize(path, workingDirectory).AboveRoot? <==>
              (path == [] || Absolute(path) || Absolute(workingDirectory)) &&
              ClimbsAbove(0, AllComponents(path, workingDirectory))
  {
    WalkFails([], AllComponents(path, workingDirectory));
  }
}
