/** Which classes are handles: the two depth-first searches of the invoke-method generator over declared
    base classes, each sharing one set of visited names along all its recursive calls. */
module HandleReachability {

  /** A class found in a header: the names of its bases, and the text of its body. */
  datatype Declaration = Declaration(bases: set<string>, body: string)

  type Declarations = map<string, Declaration>

  const BASE_HANDLE_ROOT_NAMES: set<string> := {"BaseHandle"}

  /** `needle in haystack` on strings, tried at one position after the other. */
  predicate Occurs(needle: string, haystack: string) {
    exists i :: 0 <= i <= |haystack| && needle <= haystack[i..]
  }

  /** The text has the word somewhere, with anything before and after it. */
  ghost predicate Surrounds(before: string, word: string, after: string, text: string) {
    text == before + word + after
  }

  lemma OccursIff(needle: string, haystack: string)
    ensures Occurs(needle, haystack) <==> exists before, after :: Surrounds(before, needle, after, haystack)
  {
    if i :| 0 <= i <= |haystack| && needle <= haystack[i..] {
      assert haystack == haystack[..i] + haystack[i..];
      assert Surrounds(haystack[..i], needle, haystack[i..][|needle|..], haystack);
    }
    if before, after :| Surrounds(before, needle, after, haystack) {
      assert haystack[|before|..] == needle + after;
      assert needle <= haystack[|before|..];
    }
  }

  /** Each class on the path is declared, except perhaps the last, and has the next one as a base. */
  ghost predicate Chain(decls: Declarations, path: seq<string>) {
    path != [] && forall i :: 0 <= i < |path| - 1 ==> Base(decls, path, i)
  }

  ghost predicate Base(decls: Declarations, path: seq<string>, i: nat)
    requires i + 1 < |path|
  {
    path[i] in decls && path[i + 1] in decls[path[i]].bases
  }

  /** Some chain of declared bases leads from `name` to a class that meets the goal. */
  ghost predicate Reaches(decls: Declarations, goal: iset<string>, name: string) {
    exists path :: Chain(decls, path) && path[0] == name && path[|path| - 1] in goal
  }

  ghost const Roots: iset<string> := iset{"BaseHandle"}

  /** Declared classes whose body has the word DownCast somewhere in it. */
  ghost function DownCasting(decls: Declarations): iset<string> {
    iset n | n in decls && exists before, after :: Surrounds(before, "DownCast", after, decls[n].body)
  }

  /** The mutable set the Python code passes down as `visiting`. */
  class Visiting {
    var names: set<string>

    constructor ()
      ensures names == {}
    {
      names := {};
    }
  }

  // ----- What an unsuccessful search has established -----

  /** Nothing more to look for at `name`: it has been visited, or it is a dead end. */
  ghost predicate Settled(decls: Declarations, goal: iset<string>, visited: set<string>, name: string) {
    name in visited || (name !in decls && name !in goal)
  }

  /** Every class visited after `before` is declared, misses the goal, and has all its bases settled. */
  ghost predicate Explored(decls: Declarations, goal: iset<string>, before: set<string>, after: set<string>) {
    && before <= after
    && forall n :: n in after && n !in before ==>
      n in decls && n !in goal && forall b :: b in decls[n].bases ==> Settled(decls, goal, after, b)
  }

  lemma ExploredTwice(decls: Declarations, goal: iset<string>, a: set<string>, b: set<string>, c: set<string>)
    requires Explored(decls, goal, a, b) && Explored(decls, goal, b, c)
    ensures Explored(decls, goal, a, c)
  {
  }

  /** A set of visited classes that is closed under bases and misses the goal cuts every chain. */
  lemma {:induction false} ClosedSetBlocks(decls: Declarations, goal: iset<string>, visited: set<string>,
                                           path: seq<string>)
    requires Explored(decls, goal, {}, visited)
    requires Chain(decls, path) && Settled(decls, goal, visited, path[0])
    ensures path[|path| - 1] !in goal
  {
    if |path| > 1 {
      assert Base(decls, path, 0);
      var rest := path[1..];
      forall i | 0 <= i < |rest| - 1 ensures Base(decls, rest, i) {
        assert Base(decls, path, i + 1);
      }
      ClosedSetBlocks(decls, goal, visited, rest);
    }
  }

  lemma ReachesByBase(decls: Declarations, goal: iset<string>, name: string, base: string)
    requires name in decls && base in decls[name].bases && Reaches(decls, goal, base)
    ensures Reaches(decls, goal, name)
  {
    var path :| Chain(decls, path) && path[0] == base && path[|path| - 1] in goal;
    var longer := [name] + path;
    forall i | 0 <= i < |longer| - 1 ensures Base(decls, longer, i) {
      if i > 0 {
        assert Base(decls, path, i - 1);
      }
    }
    assert Chain(decls, longer);
  }

  lemma ReachesAtOnce(decls: Declarations, goal: iset<string>, name: string)
    requires name in goal
    ensures Reaches(decls, goal, name)
  {
    assert Chain(decls, [name]);
  }

  /** The simplest handle class: it names BaseHandle as a base and has the word DownCast in its body. */
  lemma OwnDownCastSuffices(decls: Declarations, name: string, before: string, after: string)
    requires name in decls && "BaseHandle" in decls[name].bases && decls[name].body == before + "DownCast" + after
    ensures Reaches(decls, DownCasting(decls), name) && Reaches(decls, Roots, name)
  {
    assert Surrounds(before, "DownCast", after, decls[name].body);
    ReachesAtOnce(decls, DownCasting(decls), name);
    ReachesAtOnce(decls, Roots, "BaseHandle");
    ReachesByBase(decls, Roots, name, "BaseHandle");
  }

  // ----- The searches -----

  method DerivesVisiting(name: string, decls: Declarations, visiting: Visiting) returns (found: bool)
    modifies visiting
    ensures found ==> Reaches(decls, Roots, name)
    ensures !found ==> Explored(decls, Roots, old(visiting.names), visiting.names)
    ensures !found ==> Settled(decls, Roots, visiting.names, name)
    ensures old(visiting.names) <= visiting.names
    decreases decls.Keys - visiting.names
  {
    if name in BASE_HANDLE_ROOT_NAMES {
      ReachesAtOnce(decls, Roots, name);
      return true;
    }
    if name in visiting.names {
      return false;
    }
    if name !in decls {
      return false;
    }
    var bases := decls[name].bases;
    visiting.names := visiting.names + {name};
    ghost var entered := visiting.names;
    var remaining := bases;
    while remaining != {}
      invariant remaining <= bases
      invariant Explored(decls, Roots, entered, visiting.names)
      invariant forall b :: b in bases && b !in remaining ==> Settled(decls, Roots, visiting.names, b)
      decreases remaining
    {
      var base :| base in remaining;  // sets are iterated in any order
      if base in BASE_HANDLE_ROOT_NAMES {
        ReachesAtOnce(decls, Roots, base);
        ReachesByBase(decls, Roots, name, base);
        return true;
      }
      ghost var before := visiting.names;
      var derives := DerivesVisiting(base, decls, visiting);
      if derives {
        ReachesByBase(decls, Roots, name, base);
        return true;
      }
      ExploredTwice(decls, Roots, entered, before, visiting.names);
      remaining := remaining - {base};
    }
    return false;
  }

  /** On any graph of declarations, cyclic or not, and whatever the iteration order: true exactly when a
      chain of declared bases reaches BaseHandle. */
  method DerivesFromBaseHandle(name: string, decls: Declarations) returns (found: bool)
    ensures found <==> Reaches(decls, Roots, name)
  {
    var visiting := new Visiting();
    found := DerivesVisiting(name, decls, visiting);
    if !found {
      Unreachable(decls, Roots, visiting.names, name);
    }
  }

  lemma Unreachable(decls: Declarations, goal: iset<string>, visited: set<string>, name: string)
    requires Explored(decls, goal, {}, visited) && Settled(decls, goal, visited, name)
    ensures !Reaches(decls, goal, name)
  {
    forall path | Chain(decls, path) && path[0] == name ensures path[|path| - 1] !in goal {
      ClosedSetBlocks(decls, goal, visited, path);
    }
  }

  method DownCastVisiting(name: string, decls: Declarations, visiting: Visiting) returns (found: bool)
    modifies visiting
    ensures found ==> Reaches(decls, DownCasting(decls), name)
    ensures !found ==> Explored(decls, DownCasting(decls), old(visiting.names), visiting.names)
    ensures !found ==> Settled(decls, DownCasting(decls), visiting.names, name)
    ensures old(visiting.names) <= visiting.names
    decreases decls.Keys - visiting.names
  {
    if name in visiting.names {
      return false;
    }
    if name !in decls {
      return false;
    }
    OccursIff("DownCast", decls[name].body);
    if Occurs("DownCast", decls[name].body) {
      ReachesAtOnce(decls, DownCasting(decls), name);
      return true;
    }
    var bases := decls[name].bases;
    visiting.names := visiting.names + {name};
    ghost var entered := visiting.names;
    var remaining := bases;
    while remaining != {}
      invariant remaining <= bases
      invariant Explored(decls, DownCasting(decls), entered, visiting.names)
      invariant forall b :: b in bases && b !in remaining ==> Settled(decls, DownCasting(decls), visiting.names, b)
      decreases remaining
    {
      var base :| base in remaining;  // sets are iterated in any order
      ghost var before := visiting.names;
      var inherits := DownCastVisiting(base, decls, visiting);
      if inherits {
        ReachesByBase(decls, DownCasting(decls), name, base);
        return true;
      }
      ExploredTwice(decls, DownCasting(decls), entered, before, visiting.names);
      remaining := remaining - {base};
    }
    return false;
  }

  method HasDeclaredOrInheritedDownCast(name: string, decls: Declarations) returns (found: bool)
    ensures found <==> Reaches(decls, DownCasting(decls), name)
  {
    var visiting := new Visiting();
    found := DownCastVisiting(name, decls, visiting);
    if !found {
      Unreachable(decls, DownCasting(decls), visiting.names, name);
    }
  }

  /** A class methods are generated for: declared, with a DownCast of its own or inherited, deriving from BaseHandle. */
  method IsInvokableHandleClass(name: string, decls: Declarations) returns (ok: bool)
    ensures ok <==> name in decls && Reaches(decls, DownCasting(decls), name) && Reaches(decls, Roots, name)
  {
    if name !in decls {
      return false;
    }
    ok := HasDeclaredOrInheritedDownCast(name, decls);
    if ok {
      ok := DerivesFromBaseHandle(name, decls);
    }
  }
}
