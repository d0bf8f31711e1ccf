/**
 * Environment construction in `_gym_make` (neat_gym/__init__.py): each wrapper
 * path "pkg.mod.Class" is split at its dots, the class name is the last
 * component, the module path is rebuilt from the remaining components in a
 * loop that skips leading empty components, and the wrappers are applied in
 * list order, each around the environment built so far. Any failure exits
 * with status 1 instead of returning a partial environment.
 */
module GymMake {
  import opened Options

  /** Python's `".".join(words)`. */
  function Join(words: seq<string>): string
  {
    if |words| == 0 then ""
    else if |words| == 1 then words[0]
    else words[0] + "." + Join(words[1..])
  }

  /** Python's `s.split(".")`: never empty, dot-free pieces, and joining them gives `s` back. */
  function Split(s: string): (words: seq<string>)
    ensures |words| >= 1
    ensures forall i :: 0 <= i < |words| ==> '.' !in words[i]
    ensures Join(words) == s
    ensures words[0] == "" <==> (s == "" || s[0] == '.')
    decreases |s|
  {
    if s == "" then [""]
    else
      var rest := Split(s[1..]);
      if s[0] == '.' then
        assert s == "." + s[1..];
        assert ([""] + rest)[1..] == rest;
        [""] + rest
      else
        var words := [[s[0]] + rest[0]] + rest[1..];
        assert |rest| > 1 ==> words[1..] == rest[1..];
        assert s == [s[0]] + s[1..];
        words
  }

  /** A dot-free word splits to itself. */
  lemma SplitDotFree(w: string)
    requires '.' !in w
    ensures Split(w) == [w]
  {
  }

  /** Splitting "w.t" with a dot-free `w` gives `w` followed by the pieces of `t`. */
  lemma {:induction false} SplitAfterWord(w: string, t: string)
    requires '.' !in w
    ensures Split(w + "." + t) == [w] + Split(t)
    decreases |w|
  {
    var s := w + "." + t;
    if w == "" {
      assert s[1..] == t;
    } else {
      assert s[1..] == w[1..] + "." + t;
      SplitAfterWord(w[1..], t);
      assert [w[0]] + w[1..] == w;
    }
  }

  /** `split` undoes `join` on a non-empty list of dot-free words. */
  lemma {:induction false} SplitJoin(words: seq<string>)
    requires |words| >= 1
    requires forall i :: 0 <= i < |words| ==> '.' !in words[i]
    ensures Split(Join(words)) == words
    decreases |words|
  {
    if |words| == 1 {
      SplitDotFree(words[0]);
    } else {
      SplitJoin(words[1..]);
      SplitAfterWord(words[0], Join(words[1..]));
      assert [words[0]] + words[1..] == words;
    }
  }

  /** The join of a non-empty list starts with its first word. */
  lemma JoinStartsWithFirst(words: seq<string>)
    requires |words| >= 1
    ensures words[0] <= Join(words)
  {
  }

  /** Appending a word to a non-empty list appends "." and the word to its join. */
  lemma {:induction false} JoinSnoc(words: seq<string>, w: string)
    requires |words| >= 1
    ensures Join(words + [w]) == Join(words) + "." + w
    decreases |words|
  {
    if |words| > 1 {
      assert (words + [w])[1..] == words[1..] + [w];
      JoinSnoc(words[1..], w);
    }
  }

  /** The words left once the leading empty ones are dropped: none, or a non-empty one first. */
  function DropLeadingEmpty(words: seq<string>): (r: seq<string>)
    ensures r == [] || r[0] != ""
  {
    if words == [] then []
    else if words[0] == "" then DropLeadingEmpty(words[1..])
    else words
  }

  /** What `DropLeadingEmpty` drops is a prefix of empty words, and what it keeps is the rest. */
  lemma {:induction false} DropLeadingEmptySuffix(words: seq<string>)
    ensures |DropLeadingEmpty(words)| <= |words|
    ensures DropLeadingEmpty(words) == words[|words| - |DropLeadingEmpty(words)|..]
    ensures forall i :: 0 <= i < |words| - |DropLeadingEmpty(words)| ==> words[i] == ""
    decreases |words|
  {
    if words != [] && words[0] == "" {
      DropLeadingEmptySuffix(words[1..]);
    }
  }

  /** How one more word changes the list with leading empty words dropped. */
  lemma {:induction false} DropLeadingEmptySnoc(words: seq<string>, w: string)
    ensures DropLeadingEmpty(words + [w]) ==
      if DropLeadingEmpty(words) == [] then (if w == "" then [] else [w])
      else DropLeadingEmpty(words) + [w]
    decreases |words|
  {
    if words != [] {
      assert (words + [w])[1..] == words[1..] + [w];
      if words[0] == "" {
        DropLeadingEmptySnoc(words[1..], w);
      }
    }
  }

  /** One turn of the module-path loop, stated on the joined result. */
  lemma BaseModuleStep(words: seq<string>, w: string)
    ensures Join(DropLeadingEmpty(words + [w])) ==
      if Join(DropLeadingEmpty(words)) != "" then Join(DropLeadingEmpty(words)) + "." + w
      else Join(DropLeadingEmpty(words)) + w
  {
    DropLeadingEmptySnoc(words, w);
    var kept := DropLeadingEmpty(words);
    if kept != [] {
      JoinStartsWithFirst(kept);
      JoinSnoc(kept, w);
    }
  }

  /**
   * The module-path loop of `_gym_make`: a word is appended bare while the
   * path is still empty and after a "." once it is not.
   */
  method BaseModule(words: seq<string>) returns (baseModule: string)
    ensures baseModule == Join(DropLeadingEmpty(words))
    ensures |words| >= 1 && words[0] != "" ==> baseModule == Join(words)
  {
    baseModule := "";
    for i := 0 to |words|
      invariant baseModule == Join(DropLeadingEmpty(words[..i]))
    {
      var word := words[i];
      assert words[..i + 1] == words[..i] + [word];
      BaseModuleStep(words[..i], word);
      if baseModule != "" {
        baseModule := baseModule + "." + word;
      } else {
        baseModule := baseModule + word;
      }
    }
    assert words[..|words|] == words;
  }

  /** The class name of a wrapper path: its last dot-separated component. */
  function ClassName(wrapper: string): string
  {
    var words := Split(wrapper);
    words[|words| - 1]
  }

  /** The module path of a wrapper path, as the loop in `_gym_make` builds it. */
  function ModulePath(wrapper: string): string
  {
    var words := Split(wrapper);
    Join(DropLeadingEmpty(words[..|words| - 1]))
  }

  /** A join of dot-free words whose first word is non-empty does not start with a dot. */
  lemma JoinNoLeadingDot(words: seq<string>)
    requires words == [] || words[0] != ""
    requires forall i :: 0 <= i < |words| ==> '.' !in words[i]
    ensures Join(words) == "" || Join(words)[0] != '.'
  {
  }

  /**
   * Splits one wrapper path into its module path and class name, as lines
   * 29-37 of `_gym_make` do.
   */
  method SplitWrapperPath(wrapper: string) returns (modulePath: string, name: string)
    ensures modulePath == ModulePath(wrapper) && name == ClassName(wrapper)
    ensures '.' !in name
    ensures |name| <= |wrapper| && name == wrapper[|wrapper| - |name|..]
    ensures '.' !in wrapper ==> name == wrapper && modulePath == ""
    ensures '.' in wrapper ==> wrapper[|wrapper| - |name| - 1] == '.'
    ensures modulePath == "" || modulePath[0] != '.'
    ensures wrapper != "" && wrapper[0] != '.' && '.' in wrapper ==>
      modulePath == wrapper[..|wrapper| - |name| - 1]
  {
    var wordList := Split(wrapper);
    name := wordList[|wordList| - 1];
    var prefix := wordList[..|wordList| - 1];
    assert wordList == prefix + [name];
    modulePath := BaseModule(prefix);
    if prefix == [] {
      assert wrapper == name;
    } else {
      JoinSnoc(prefix, name);
      assert wrapper == Join(prefix) + "." + name;
      assert '.' in wrapper;
    }
    if '.' !in wrapper {
      SplitDotFree(wrapper);
    }
    var kept := DropLeadingEmpty(prefix);
    DropLeadingEmptySuffix(prefix);
    forall i | 0 <= i < |kept| ensures '.' !in kept[i] {
      assert kept[i] == prefix[|prefix| - |kept| + i];
    }
    JoinNoLeadingDot(kept);
  }

  /**
   * Applies one wrapper path to `env`: `importlib.import_module` refuses the
   * empty module name, and otherwise `load` stands for importing the module,
   * looking up the class and constructing the wrapper, None if any of them raises.
   */
  function WrapOnce<E>(env: E, wrapper: string, load: (string, string, E) -> Option<E>): Option<E>
  {
    var path := ModulePath(wrapper);
    if path == "" then None else load(path, ClassName(wrapper), env)
  }

  /** The wrappers applied in list order, each around the result of the previous ones. */
  function Chain<E>(env: E, wrappers: seq<string>, load: (string, string, E) -> Option<E>): Option<E>
    decreases |wrappers|
  {
    if wrappers == [] then Some(env)
    else
      match WrapOnce(env, wrappers[0], load)
      case None => None
      case Some(e) => Chain(e, wrappers[1..], load)
  }

  /** Applying `a + b` is applying `a`, then `b` to its result; a failure in `a` is final. */
  lemma {:induction false} ChainAppend<E>(env: E, a: seq<string>, b: seq<string>, load: (string, string, E) -> Option<E>)
    ensures Chain(env, a + b, load) ==
      match Chain(env, a, load)
      case None => None
      case Some(e) => Chain(e, b, load)
    decreases |a|
  {
    if a == [] {
      assert a + b == b;
    } else {
      assert (a + b)[1..] == a[1..] + b;
      match WrapOnce(env, a[0], load)
      case None =>
      case Some(e) => ChainAppend(e, a[1..], b, load);
    }
  }

  /** One more wrapper is applied around the result of the ones before it. */
  lemma ChainSnoc<E>(env: E, wrappers: seq<string>, w: string, load: (string, string, E) -> Option<E>)
    ensures Chain(env, wrappers + [w], load) ==
      match Chain(env, wrappers, load)
      case None => None
      case Some(e) => WrapOnce(e, w, load)
  {
    ChainAppend(env, wrappers, [w], load);
    match Chain(env, wrappers, load)
    case None =>
    case Some(e) => assert [w][1..] == [];
  }

  /** Once a wrapper fails, the whole chain fails. */
  lemma ChainFailureIsFinal<E>(env: E, wrappers: seq<string>, n: nat, load: (string, string, E) -> Option<E>)
    requires n <= |wrappers| && Chain(env, wrappers[..n], load) == None
    ensures Chain(env, wrappers, load) == None
  {
    assert wrappers == wrappers[..n] + wrappers[n..];
    ChainAppend(env, wrappers[..n], wrappers[n..], load);
  }

  /** What `_gym_make` produces: the wrapped environment, or exit status 1. */
  datatype Made<E> = Made(env: E) | Exited(code: int)

  /**
   * `_gym_make`: `make` stands for `gym.make` (None when it raises). The
   * outcome is the fully wrapped environment or `exit(1)`, never a partly
   * wrapped one.
   */
  method MakeEnv<E>(envName: string, wrappers: seq<string>, make: string -> Option<E>,
                    load: (string, string, E) -> Option<E>) returns (r: Made<E>)
    ensures r.Exited? ==> r.code == 1
    ensures r.Made? <==> make(envName).Some? && Chain(make(envName).value, wrappers, load).Some?
    ensures r.Made? ==> r.env == Chain(make(envName).value, wrappers, load).value
  {
    var made := make(envName);
    if made.None? {
      return Exited(1);
    }
    var env := made.value;
    for i := 0 to |wrappers|
      invariant Chain(made.value, wrappers[..i], load) == Some(env)
    {
      var modulePath, name := SplitWrapperPath(wrappers[i]);
      assert wrappers[..i + 1] == wrappers[..i] + [wrappers[i]];
      ChainSnoc(made.value, wrappers[..i], wrappers[i], load);
      // `importlib.import_module("")` raises before any lookup is tried
      var wrapped := if modulePath == "" then None else load(modulePath, name, env);
      if wrapped.None? {
        ChainFailureIsFinal(made.value, wrappers, i + 1, load);
        return Exited(1);
      }
      env := wrapped.value;
    }
    assert wrappers[..|wrappers|] == wrappers;
    return Made(env);
  }
}
