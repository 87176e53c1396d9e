/** What a module id means (apps/oden/duktape/duk_module_duktape.c): terms between slashes,
    resolved on a stack of components. Ids are byte strings without zero bytes. */
module ModulePath {
  import opened Common

  const SLASH: nat := 47
  const DOT: nat := 46

  predicate CString(s: seq<nat>) {
    forall k :: 0 <= k < |s| ==> s[k] != 0
  }

  /** The length of the first term. */
  function TermLength(s: seq<nat>): (n: nat)
    ensures n <= |s| && (n < |s| ==> s[n] == SLASH)
    ensures forall k :: 0 <= k < n ==> s[k] != SLASH
  {
    if s == [] || s[0] == SLASH then 0 else 1 + TermLength(s[1..])
  }

  function DropSlashes(s: seq<nat>): (r: seq<nat>)
    ensures |r| <= |s|
    ensures r != [] ==> r[0] != SLASH
  {
    if s != [] && s[0] == SLASH then DropSlashes(s[1..]) else s
  }

  /** '.' is dropped, '..' takes the last component away, any other term is pushed. The last
      term must be a proper one; no term is empty or starts with a period otherwise. */
  function Resolve(s: seq<nat>, stack: seq<seq<nat>>): Option<seq<seq<nat>>>
    decreases |s|
  {
    var n := TermLength(s);
    if n == 0 then None
    else if n == |s| then (if s[0] == DOT then None else Some(stack + [s]))
    else
      var term, rest := s[..n], DropSlashes(s[n..]);
      if term == [DOT] then Resolve(rest, stack)
      else if term == [DOT, DOT] then (if stack == [] then None else Resolve(rest, stack[..|stack| - 1]))
      else if term[0] == DOT then None
      else Resolve(rest, stack + [term])
  }

  /** The components with a slash behind each. */
  function Prefix(stack: seq<seq<nat>>): seq<nat> {
    if stack == [] then [] else Prefix(stack[..|stack| - 1]) + stack[|stack| - 1] + [SLASH]
  }

  /** The resolved name. */
  function Joined(stack: seq<seq<nat>>): seq<nat>
    requires stack != []
  {
    Prefix(stack[..|stack| - 1]) + stack[|stack| - 1]
  }

  /** A component of a resolved name. */
  predicate Component(c: seq<nat>) {
    c != [] && c[0] != DOT && forall k :: 0 <= k < |c| ==> c[k] != SLASH
  }

  predicate Components(stack: seq<seq<nat>>) {
    forall k :: 0 <= k < |stack| ==> Component(stack[k])
  }

  /** Resolving yields proper components, at least one. */
  lemma {:induction false} ResolveIsProper(s: seq<nat>, stack: seq<seq<nat>>)
    requires Components(stack) && Resolve(s, stack).Some?
    ensures Resolve(s, stack).value != [] && Components(Resolve(s, stack).value)
    decreases |s|
  {
    var n := TermLength(s);
    if n < |s| {
      var term, rest := s[..n], DropSlashes(s[n..]);
      if term == [DOT] {
        ResolveIsProper(rest, stack);
      } else if term == [DOT, DOT] {
        ResolveIsProper(rest, stack[..|stack| - 1]);
      } else {
        ResolveIsProper(rest, stack + [term]);
      }
    }
  }

  lemma {:induction false} TermLengthIs(s: seq<nat>, n: nat)
    requires n <= |s| && (n < |s| ==> s[n] == SLASH) && forall k :: 0 <= k < n ==> s[k] != SLASH
    ensures TermLength(s) == n
  {
    if n > 0 {
      TermLengthIs(s[1..], n - 1);
    }
  }

  /** A resolved name resolves to itself. */
  lemma {:induction false} ResolvedIsStable(done: seq<seq<nat>>, left: seq<seq<nat>>)
    requires Components(done) && Components(left) && left != []
    ensures Resolve(Joined(left), done) == Some(done + left)
    decreases |left|
  {
    if |left| == 1 {
      assert Joined(left) == left[0];
      LastTerm(left[0], done);
      assert done + [left[0]] == done + left;
    } else {
      JoinedFirst(left);
      JoinedStart(left[1..]);
      FirstTerm(left[0], Joined(left[1..]), done);
      ResolvedIsStable(done + [left[0]], left[1..]);
      assert done + [left[0]] + left[1..] == done + left;
    }
  }

  lemma LastTerm(c: seq<nat>, done: seq<seq<nat>>)
    requires Component(c)
    ensures Resolve(c, done) == Some(done + [c])
  {
    TermLengthIs(c, |c|);
  }

  lemma FirstTerm(c: seq<nat>, rest: seq<nat>, done: seq<seq<nat>>)
    requires Component(c) && rest != [] && rest[0] != SLASH
    ensures Resolve(c + [SLASH] + rest, done) == Resolve(rest, done + [c])
  {
    var s := c + [SLASH] + rest;
    TermLengthIs(s, |c|);
    assert s[..|c|] == c;
    assert s[|c|..] == [SLASH] + rest;
    assert s[|c|..][1..] == rest;
    assert DropSlashes(s[|c|..]) == DropSlashes(rest) == rest;
  }

  lemma {:induction false} PrefixFirst(stack: seq<seq<nat>>)
    requires stack != []
    ensures Prefix(stack) == stack[0] + [SLASH] + Prefix(stack[1..])
  {
    if |stack| == 1 {
      assert Prefix(stack[..0]) == [];
    } else {
      var front := stack[..|stack| - 1];
      PrefixFirst(front);
      assert stack[1..][..|stack[1..]| - 1] == front[1..];
    }
  }

  lemma JoinedFirst(stack: seq<seq<nat>>)
    requires |stack| > 1
    ensures Joined(stack) == stack[0] + [SLASH] + Joined(stack[1..])
  {
    var front := stack[..|stack| - 1];
    PrefixFirst(front);
    assert stack[1..][..|stack[1..]| - 1] == front[1..];
  }

  /** A joined name starts with its first component. */
  lemma JoinedStart(stack: seq<seq<nat>>)
    requires stack != [] && Components(stack)
    ensures Joined(stack) != [] && Joined(stack)[0] == stack[0][0] && Joined(stack)[0] != SLASH
  {
    if |stack| > 1 {
      JoinedFirst(stack);
    }
  }
}
