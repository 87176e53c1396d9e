/** duk__resolve_module_id (apps/oden/duktape/duk_module_duktape.c): the id is resolved in one
    buffer, the output written over the input. */
module ModuleResolver {
  import opened Common
  import opened ModulePath

  const MODULE_ID_LIMIT: nat := 256

  /** The text to resolve: a relative id behind the current module's. */
  function Input(reqId: seq<nat>, modId: Option<seq<nat>>): seq<nat> {
    if modId.Some? && reqId != [] && reqId[0] == DOT then modId.value + [SLASH, DOT, DOT, SLASH] + reqId else reqId
  }

  // ---- Steps of the specification, from place p of the input

  lemma DotStep(s: seq<nat>, p: nat, stack: seq<seq<nat>>)
    requires p + 2 <= |s| && s[p] == DOT && s[p + 1] == SLASH
    ensures Resolve(s[p..], stack) == Resolve(DropSlashes(s[p + 2..]), stack)
  {
    var t := s[p..];
    TermLengthIs(t, 1);
    assert t[..1] == [DOT];
    assert t[1..][1..] == s[p + 2..];
  }

  lemma DotDotStep(s: seq<nat>, p: nat, stack: seq<seq<nat>>)
    requires p + 3 <= |s| && s[p] == DOT && s[p + 1] == DOT && s[p + 2] == SLASH
    ensures Resolve(s[p..], stack) == if stack == [] then None else Resolve(DropSlashes(s[p + 3..]), stack[..|stack| - 1])
  {
    var t := s[p..];
    TermLengthIs(t, 2);
    assert t[..2] == [DOT, DOT];
    assert t[2..][1..] == s[p + 3..];
  }

  lemma BadDot(s: seq<nat>, p: nat, stack: seq<seq<nat>>)
    requires p < |s| && s[p] == DOT
    requires !(p + 2 <= |s| && s[p + 1] == SLASH)
    requires !(p + 3 <= |s| && s[p + 1] == DOT && s[p + 2] == SLASH)
    ensures Resolve(s[p..], stack) == None
  {
    var t := s[p..];
    var n := TermLength(t);
    if n < |t| {
      assert t[..n] != [DOT];
      assert t[..n] != [DOT, DOT];
    }
  }

  /** Nothing left, or an empty term. */
  lemma NoTerm(s: seq<nat>, p: nat, stack: seq<seq<nat>>)
    requires p <= |s| && (p < |s| ==> s[p] == SLASH)
    ensures Resolve(s[p..], stack) == None
  {
  }

  lemma TermStep(s: seq<nat>, p: nat, q: nat, stack: seq<seq<nat>>)
    requires p < q < |s| && s[q] == SLASH && s[p] != DOT && forall i :: p <= i < q ==> s[i] != SLASH
    ensures Resolve(s[p..], stack) == Resolve(DropSlashes(s[q + 1..]), stack + [s[p..q]])
    ensures Component(s[p..q])
    ensures Prefix(stack + [s[p..q]]) == Prefix(stack) + s[p..q] + [SLASH]
  {
    var t, k := s[p..], q - p;
    TermLengthIs(t, k);
    assert t[..k] == s[p..q];
    assert t[k..][1..] == s[q + 1..];
    assert s[p..q][0] == s[p];
    assert (stack + [s[p..q]])[..|stack|] == stack;
  }

  lemma LastStep(s: seq<nat>, p: nat, stack: seq<seq<nat>>)
    requires p < |s| && s[p] != DOT && forall i :: p <= i < |s| ==> s[i] != SLASH
    ensures Resolve(s[p..], stack) == Some(stack + [s[p..]])
    ensures Joined(stack + [s[p..]]) == Prefix(stack) + s[p..]
  {
    TermLengthIs(s[p..], |s| - p);
    assert (stack + [s[p..]])[..|stack|] == stack;
  }

  // ---- Requests that begin with a period

  /** A resolved name in front of more text: its components go on the stack. */
  lemma {:induction false} NameTaken(left: seq<seq<nat>>, rest: seq<nat>, done: seq<seq<nat>>)
    requires left != [] && Components(left)
    ensures Resolve(Joined(left) + [SLASH] + rest, done) == Resolve(DropSlashes(rest), done + left)
    decreases |left|
  {
    hide Resolve, DropSlashes, Joined;
    var c := left[0];
    var more := if |left| == 1 then rest else Joined(left[1..]) + [SLASH] + rest;
    var s := c + [SLASH] + more;
    SingleName(left);
    assert s[0..] == s && s[0..|c|] == c && s[|c| + 1..] == more;
    TermStep(s, 0, |c|, done);
    if |left| == 1 {
      assert done + [c] == done + left;
    } else {
      JoinedFirst(left);
      JoinedStart(left[1..]);
      NoSlashes(more);
      NameTaken(left[1..], rest, done + [c]);
      assert done + [c] + left[1..] == done + left;
      assert s == Joined(left) + [SLASH] + rest;
    }
  }

  lemma SingleName(stack: seq<seq<nat>>)
    requires stack != [] && Components(stack)
    ensures Component(stack[0]) && (|stack| == 1 ==> Joined(stack) == stack[0])
  {
  }

  lemma NoSlashes(s: seq<nat>)
    requires s != [] && s[0] != SLASH
    ensures DropSlashes(s) == s
  {
  }

  /** A request that begins with a period starts where the current module is: its last
      component does not count. */
  lemma RelativeRequest(reqId: seq<nat>, stack: seq<seq<nat>>)
    requires reqId != [] && reqId[0] == DOT && stack != [] && Components(stack)
    ensures Resolve(Input(reqId, Some(Joined(stack))), []) == Resolve(reqId, stack[..|stack| - 1])
    ensures |Input(reqId, Some(Joined(stack)))| == |Joined(stack)| + 4 + |reqId|
  {
    hide Resolve, DropSlashes, Joined;
    var up := [DOT, DOT, SLASH] + reqId;
    assert Input(reqId, Some(Joined(stack))) == Joined(stack) + [SLASH] + up;
    NameTaken(stack, up, []);
    NoSlashes(up);
    assert [] + stack == stack && up[0..] == up && up[3..] == reqId;
    DotDotStep(up, 0, stack);
    NoSlashes(reqId);
  }

  /** './quux', required by 'foo/bar', is 'foo/quux'. */
  lemma QuuxExample()
    ensures var r := Resolve(Input([46, 47, 113, 117, 117, 120], Some([102, 111, 111, 47, 98, 97, 114])), []);
      r.Some? && r.value != [] && Joined(r.value) == [102, 111, 111, 47, 113, 117, 117, 120]
  {
    hide Resolve, DropSlashes, Joined, Prefix, Input;
    var foo: seq<nat>, bar: seq<nat>, quux: seq<nat> := [102, 111, 111], [98, 97, 114], [113, 117, 117, 120];
    var request := [DOT, SLASH] + quux;
    JoinedTwo(foo, bar);
    JoinedTwo(foo, quux);
    assert foo + [SLASH] + bar == [102, 111, 111, 47, 98, 97, 114];
    RelativeRequest(request, [foo, bar]);
    assert request == [46, 47, 113, 117, 117, 120];
    assert [foo, bar][..1] == [foo] && request[0..] == request && request[2..] == quux;
    DotStep(request, 0, [foo]);
    NoSlashes(quux);
    LastTerm(quux, [foo]);
    assert [foo] + [quux] == [foo, quux];
    assert foo + [SLASH] + quux == [102, 111, 111, 47, 113, 117, 117, 120];
  }

  lemma JoinedTwo(a: seq<nat>, b: seq<nat>)
    ensures Joined([a, b]) == a + [SLASH] + b
  {
    assert [a, b][..1] == [a] && [a][..0] == [];
    assert Prefix([a]) == a + [SLASH];
  }

  /** The output so far ends in the last component and its slash. */
  lemma PrefixEnds(stack: seq<seq<nat>>)
    requires stack != [] && Components(stack)
    ensures var b, c := Prefix(stack[..|stack| - 1]), stack[|stack| - 1];
      && |Prefix(stack)| == |b| + |c| + 1 && Prefix(stack)[..|b|] == b
      && (forall i :: |b| <= i < |b| + |c| ==> Prefix(stack)[i] != SLASH)
      && Prefix(stack)[|b| + |c|] == SLASH
      && (b != [] ==> b[|b| - 1] == SLASH)
  {
    var b, c := Prefix(stack[..|stack| - 1]), stack[|stack| - 1];
    assert Component(c);
    assert Prefix(stack) == b + c + [SLASH];
    forall i | |b| <= i < |b| + |c|
      ensures Prefix(stack)[i] != SLASH
    {
      assert Prefix(stack)[i] == c[i - |b|];
    }
  }

  /** The buffer: the output so far in front, the input not yet read behind. */
  predicate Layout(buf: seq<nat>, s: seq<nat>, p: nat, q: nat, out: seq<nat>) {
    && |buf| == MODULE_ID_LIMIT && |s| < MODULE_ID_LIMIT && CString(s)
    && q == |out| <= p <= |s| && buf[..q] == out
    && buf[p..|s|] == s[p..] && buf[|s|] == 0
  }

  /** Reading a byte: the input's, or the terminator. */
  lemma ReadsInput(buf: seq<nat>, s: seq<nat>, p: nat, q: nat, out: seq<nat>)
    requires Layout(buf, s, p, q, out)
    ensures |buf| == MODULE_ID_LIMIT && |s| < |buf| && q == |out| <= p <= |s| && buf[..q] == out
    ensures buf[p] == (if p < |s| then s[p] else 0) && (buf[p] == 0 <==> p == |s|)
    ensures p < |s| ==> Layout(buf, s, p + 1, q, out)
  {
    if p < |s| {
      assert buf[p..|s|][0] == s[p..][0];
      assert buf[p + 1..|s|] == buf[p..|s|][1..];
    }
  }

  /** Writing a byte behind the output, over input that has been read. */
  lemma WritesOutput(buf: seq<nat>, s: seq<nat>, p: nat, q: nat, out: seq<nat>, c: nat)
    requires Layout(buf, s, p, q, out) && q < p
    ensures q < |buf| && Layout(buf[q := c], s, p, q + 1, out + [c])
  {
  }

  lemma FirstLayout(buf: seq<nat>, s: seq<nat>)
    requires |buf| == MODULE_ID_LIMIT && |s| < MODULE_ID_LIMIT && CString(s) && buf[..|s|] == s && buf[|s|] == 0
    ensures Layout(buf, s, 0, 0, [])
  {
  }

  lemma ShorterLayout(buf: seq<nat>, s: seq<nat>, p: nat, q: nat, out: seq<nat>, q': nat, out': seq<nat>)
    requires Layout(buf, s, p, q, out) && q' <= q && buf[..q'] == out'
    ensures Layout(buf, s, p, q', out')
  {
  }

  /** Eats slashes. */
  method EatSlashes(buf: array<nat>, start: nat, ghost s: seq<nat>, ghost q: nat, ghost out: seq<nat>) returns (p: nat)
    requires Layout(buf[..], s, start, q, out)
    ensures Layout(buf[..], s, p, q, out) && start <= p && s[p..] == DropSlashes(s[start..])
  {
    p := start;
    while true
      invariant Layout(buf[..], s, p, q, out) && start <= p && DropSlashes(s[p..]) == DropSlashes(s[start..])
      decreases |s| - p
    {
      ReadsInput(buf[..], s, p, q, out);
      if buf[p] != SLASH {
        break;
      }
      assert s[p..][1..] == s[p + 1..];
      p := p + 1;
    }
  }

  /** Takes the last component off the output. */
  method Backtrack(buf: array<nat>, start: nat, ghost stack: seq<seq<nat>>) returns (q: nat)
    requires stack != [] && Components(stack) && start <= buf.Length && buf[..start] == Prefix(stack)
    ensures q < start && buf[..q] == Prefix(stack[..|stack| - 1])
  {
    PrefixEnds(stack);
    ghost var b := |Prefix(stack[..|stack| - 1])|;
    q := start - 1;
    while q != 0 && buf[q - 1] != SLASH
      invariant b <= q < start
    {
      assert buf[..start][q - 1] == Prefix(stack)[q - 1];
      q := q - 1;
    }
    assert q > 0 ==> buf[..start][q - 1] == Prefix(stack)[q - 1];
    assert buf[..q] == Prefix(stack)[..q];
  }

  /** Copies a term over the input, up to its end; last when the id ends with it. */
  method CopyTerm(buf: array<nat>, start: nat, out0: nat, ghost s: seq<nat>, ghost out: seq<nat>) returns (p: nat, q: nat, last: bool)
    requires start < |s| && Layout(buf[..], s, start + 1, out0, out) && out0 <= start
    requires buf[start] == s[start] != SLASH
    modifies buf
    ensures start < p <= |s| && forall i :: start <= i < p ==> s[i] != SLASH
    ensures last ==> p == |s| && q == out0 + (p - start) && q <= MODULE_ID_LIMIT == buf.Length && buf[..q] == out + s[start..]
    ensures !last ==> p < |s| && s[p] == SLASH && Layout(buf[..], s, p + 1, q, out + s[start..p] + [SLASH])
  {
    hide Layout;
    ReadsInput(buf[..], s, start + 1, out0, out);
    p := start + 1;
    q := out0;
    var c := buf[start];
    assert out + s[start..start] == out;
    while true
      invariant start < p <= |s| && c == s[p - 1] != SLASH && q == out0 + (p - 1 - start)
      invariant Layout(buf[..], s, p, q, out + s[start..p - 1])
      invariant forall i :: start <= i < p ==> s[i] != SLASH
      decreases |s| - p
    {
      WritesOutput(buf[..], s, p, q, out + s[start..p - 1], c);
      assert out + s[start..p - 1] + [c] == out + s[start..p];
      buf[q] := c;
      q := q + 1;
      ReadsInput(buf[..], s, p, q, out + s[start..p]);
      c := buf[p];
      if c == 0 {
        last := true;
        return;
      }
      if c == SLASH {
        WritesOutput(buf[..], s, p + 1, q, out + s[start..p], SLASH);
        buf[q] := SLASH;
        q := q + 1;
        last := false;
        return;
      }
      p := p + 1;
    }
  }

  /** A term that starts with a period: '.' is skipped, '..' takes a component off the output. */
  method DotTerm(buf: array<nat>, start: nat, out: nat, ghost s: seq<nat>, ghost stack: seq<seq<nat>>)
    returns (ok: bool, p: nat, q: nat, ghost now: seq<seq<nat>>)
    requires start < |s| && s[start] == DOT && Layout(buf[..], s, start + 1, out, Prefix(stack)) && Components(stack)
    ensures !ok ==> Resolve(s[start..], stack) == None
    ensures ok ==> start < p <= |s| && Layout(buf[..], s, p, q, Prefix(now)) && Components(now)
    ensures ok ==> Resolve(s[start..], stack) == Resolve(DropSlashes(s[p..]), now)
  {
    hide Resolve, DropSlashes, Layout, Prefix, Joined, Component;
    p, q, now := start + 1, out, stack;
    ReadsInput(buf[..], s, p, q, Prefix(stack));
    var c := buf[p];
    if c == SLASH {
      DotStep(s, start, stack);
      return true, p + 1, q, now;
    }
    if c == DOT {
      ReadsInput(buf[..], s, p + 1, q, Prefix(stack));
    }
    if c == DOT && buf[p + 1] == SLASH {
      DotDotStep(s, start, stack);
      ReadsInput(buf[..], s, p + 1, q, Prefix(stack));
      p := p + 2;
      if q == 0 {
        EmptyPrefix(stack);
        return false, p, q, now;
      }
      EmptyPrefix(stack);
      q := Backtrack(buf, q, stack);
      now := stack[..|stack| - 1];
      ShorterLayout(buf[..], s, p, |Prefix(stack)|, Prefix(stack), q, Prefix(now));
      return true, p, q, now;
    }
    BadDot(s, start, stack);
    ok := false;
  }

  /** The resolution loop over the buffer. */
  method ResolveInPlace(buf: array<nat>, ghost s: seq<nat>) returns (ok: bool, resolved: seq<nat>, component: seq<nat>)
    requires Layout(buf[..], s, 0, 0, [])
    modifies buf
    ensures ok <==> Resolve(s, []).Some?
    ensures ok ==> var stack := Resolve(s, []).value;
      stack != [] && resolved == Joined(stack) && component == stack[|stack| - 1]
  {
    hide Resolve, DropSlashes, Layout, Prefix, Joined, Component;
    var p: nat, q: nat := 0, 0;
    resolved, component := [], [];
    ghost var stack: seq<seq<nat>> := [];
    EmptyPrefix(stack);
    assert s[0..] == s;
    while true
      invariant p <= |s| && Layout(buf[..], s, p, q, Prefix(stack)) && Components(stack)
      invariant Resolve(s[p..], stack) == Resolve(s, [])
      decreases |s| - p
    {
      var qLast := q;
      ghost var start := p;
      ReadsInput(buf[..], s, p, q, Prefix(stack));
      var c := buf[p];
      if c == 0 {
        NoTerm(s, start, stack);
        return false, resolved, component;
      }
      p := p + 1;
      if c == DOT {
        ok, p, q, stack := DotTerm(buf, p - 1, q, s, stack);
        if !ok {
          return false, resolved, component;
        }
      } else if c == SLASH {
        NoTerm(s, start, stack);
        return false, resolved, component;
      } else {
        var last;
        p, q, last := CopyTerm(buf, p - 1, q, s, Prefix(stack));
        if last {
          LastStep(s, start, stack);
          resolved, component := buf[..q], buf[qLast..q];
          return true, resolved, component;
        }
        TermStep(s, start, p, stack);
        stack := stack + [s[start..p]];
        p := p + 1;
      }
      p := EatSlashes(buf, p, s, q, Prefix(stack));
    }
  }

  /** The result of a request whose text is that long and whose terms resolve to that. */
  predicate Answers(ok: bool, resolved: seq<nat>, component: seq<nat>, length: nat, r: Option<seq<seq<nat>>>) {
    && (ok <==> length < 256 && r.Some?)
    && (ok ==> r.value != [] && resolved == Joined(r.value) && component == r.value[|r.value| - 1])
  }

  /** The request begins with a period, and the current module's name is that of the stack. */
  predicate FromModule(reqId: seq<nat>, modId: Option<seq<nat>>, stack: seq<seq<nat>>) {
    reqId != [] && reqId[0] == DOT && stack != [] && Components(stack) && modId == Some(Joined(stack))
  }

  /** Resolves a module id: the resolved name and its last component. It succeeds exactly
      when the text fits the buffer and its terms resolve. A request that begins with a period
      is resolved from the place of the current module, any other from nothing. */
  method ResolveModuleId(reqId: seq<nat>, modId: Option<seq<nat>>) returns (ok: bool, resolved: seq<nat>, component: seq<nat>)
    requires CString(reqId) && (modId.Some? ==> CString(modId.value))
    ensures Answers(ok, resolved, component, |Input(reqId, modId)|, Resolve(Input(reqId, modId), []))
    ensures modId.None? || reqId == [] || reqId[0] != DOT ==> Answers(ok, resolved, component, |reqId|, Resolve(reqId, []))
    ensures forall stack: seq<seq<nat>> :: FromModule(reqId, modId, stack) ==>
      Answers(ok, resolved, component, |modId.value| + 4 + |reqId|, Resolve(reqId, stack[..|stack| - 1]))
  {
    hide Resolve, Layout, Prefix, Joined;
    forall stack: seq<seq<nat>> | FromModule(reqId, modId, stack)
      ensures Resolve(Input(reqId, modId), []) == Resolve(reqId, stack[..|stack| - 1])
      ensures |Input(reqId, modId)| == |modId.value| + 4 + |reqId|
    {
      RelativeRequest(reqId, stack);
    }
    var buf := new nat[MODULE_ID_LIMIT];
    var s := Input(reqId, modId);
    if |s| >= MODULE_ID_LIMIT {
      return false, [], [];
    }
    forall i | 0 <= i < |s| {
      buf[i] := s[i];
    }
    buf[|s|] := 0;
    assert buf[..|s|] == s;
    FirstLayout(buf[..], s);
    ok, resolved, component := ResolveInPlace(buf, s);
  }

  lemma EmptyPrefix(stack: seq<seq<nat>>)
    ensures Prefix(stack) == [] <==> stack == []
  {
  }
}
