// msg_t: message handles that share reference-counted contents.
module Msg {
  // Messages up to this size are kept in the handle itself, with 8-byte pointers.
  const MAX_VSM_SIZE: nat := 64 - (8 + 8 + 3)

  datatype Kind = Invalid | Vsm | Lmsg | Delimiter | Cmsg

  class Content {
    var refcnt: nat
    ghost var freed: nat // how often it was deallocated
    ghost var pending: nat // references made by add_refs whose copies are still to come

    constructor ()
      ensures refcnt == 0 && freed == 0 && pending == 0
    {
      refcnt, freed, pending := 0, 0, 0;
    }
  }

  class Handle {
    var kind: Kind
    var shared: bool
    var content: Content?

    constructor ()
      ensures kind == Invalid
    {
      kind, shared, content := Invalid, false, null;
    }

    // check: close leaves a handle with an invalid type.
    predicate Check()
      reads this
    {
      kind != Invalid
    }
  }

  lemma Without(s: set<Handle>, m: Handle)
    requires m in s
    ensures |s - {m}| == |s| - 1
  {
    assert s == (s - {m}) + {m};
  }

  lemma With(s: set<Handle>, m: Handle)
    requires m !in s
    ensures |s + {m}| == |s| + 1
  {
  }

  lemma SameNumber(s: set<Handle>, m: Handle, n: Handle)
    requires m in s && n !in s
    ensures |s - {m} + {n}| == |s|
  {
    Without(s, m);
    With(s - {m}, n);
  }

  // The handles of before, without m if it has handed over its reference, and the copies.
  ghost function Fanned(before: set<Handle>, m: Handle, copies: set<Handle>, handedOver: bool): set<Handle>
  {
    (if handedOver then before - {m} else before) + copies
  }

  lemma FannedNone(before: set<Handle>, m: Handle)
    ensures Fanned(before, m, {}, false) == before
  {
  }

  lemma FannedNext(before: set<Handle>, m: Handle, copies: set<Handle>, copy: Handle)
    requires m !in copies
    ensures Fanned(before, m, copies, false) + {copy} == Fanned(before, m, copies + {copy}, false)
    ensures Fanned(before, m, copies, false) - {m} + {copy} == Fanned(before, m, copies + {copy}, true)
  {
  }

  // After m has given up its reference.
  lemma FannedLast(before: set<Handle>, m: Handle, copies: set<Handle>, handedOver: bool)
    requires m !in copies
    ensures Fanned(before, m, copies, handedOver) - {m} == before - {m} + copies
    ensures m in before ==> Fanned(before, m, copies, handedOver) + {m} == before + copies
    ensures handedOver ==> m !in Fanned(before, m, copies, handedOver)
    ensures copies <= Fanned(before, m, copies, handedOver)
  {
  }

  // All initialised handles and all contents ever allocated.
  class Messages {
    ghost var handles: set<Handle>
    ghost var contents: set<Content>

    ghost function Holders(c: Content): set<Handle>
      reads this, handles
    {
      set m | m in handles && m.kind == Lmsg && m.content == c
    }

    ghost predicate Valid()
      reads this, handles, contents
    {
      && (forall m :: m in handles && m.kind == Lmsg ==> m.content != null && m.content in contents)
      && (forall c :: c in contents ==> Balanced(c))
    }

    // A live content has one unshared holder, or counts its holders and the copies to come.
    ghost predicate Balanced(c: Content)
      reads this, handles, c
    {
      if c.freed > 0 then c.freed == 1 && Holders(c) == {} && c.pending == 0
      else Owned(c) || Counted(c)
    }

    ghost predicate Owned(c: Content)
      reads this, handles, c
    {
      |Holders(c)| == 1 && c.pending == 0 && forall m :: m in Holders(c) ==> !m.shared
    }

    ghost predicate Counted(c: Content)
      reads this, handles, c
    {
      c.refcnt == |Holders(c)| + c.pending > 0 && forall m :: m in Holders(c) ==> m.shared
    }

    constructor ()
      ensures Valid() && handles == {} && contents == {}
    {
      handles, contents := {}, {};
    }

    // Contents that lose no holder and gain none are as they were.
    twostate lemma OthersBalanced(new touched: set<Content>)
      requires old(Valid())
      requires forall c :: c in contents && c !in touched ==>
                c in old(contents) && unchanged(c) && Holders(c) == old(Holders(c))
      requires forall m :: m in handles && m.kind == Lmsg ==>
                 m.content != null && m.content in contents
                 && (m.content !in touched ==> m in old(handles) && m.shared == old(m.shared))
      requires forall c :: c in touched && c in contents ==> Balanced(c)
      ensures Valid()
    {
    }

    method Init(m: Handle)
      requires Valid() && (m in handles ==> m.kind != Lmsg)
      modifies this`handles, m
      ensures Valid() && handles == old(handles) + {m} && m.kind == Vsm && !m.shared
      ensures forall c :: c in contents ==> Holders(c) == old(Holders(c))
    {
      m.kind, m.shared := Vsm, false;
      handles := handles + {m};
      assert forall c :: c in contents ==> Holders(c) == old(Holders(c));
      OthersBalanced({});
    }

    // Without memory for a content the handle is not initialised.
    method InitSize(m: Handle, size: nat, memory: bool) returns (rc: int)
      requires Valid() && (m in handles ==> m.kind != Lmsg)
      modifies this, m
      ensures Valid() && rc == if size <= 45 || memory then 0 else -1
      ensures handles == if rc == 0 then old(handles) + {m} else old(handles) - {m}
      ensures rc == 0 ==> m.kind == (if size <= 45 then Vsm else Lmsg) && !m.shared
      ensures rc == 0 && m.kind == Lmsg ==>
                fresh(m.content) && contents == old(contents) + {m.content} && Holders(m.content) == {m}
      ensures forall c :: c in old(contents) ==> c in contents && Holders(c) == old(Holders(c))
    {
      if size <= MAX_VSM_SIZE {
        Init(m);
        rc := 0;
      } else {
        rc := InitLong(m, memory);
      }
    }

    // Data with no deallocation function is constant and never shared.
    method InitData(m: Handle, ffn: bool, memory: bool) returns (rc: int)
      requires Valid() && (m in handles ==> m.kind != Lmsg)
      modifies this, m
      ensures Valid() && rc == if !ffn || memory then 0 else -1
      ensures handles == if rc == 0 then old(handles) + {m} else old(handles) - {m}
      ensures rc == 0 ==> m.kind == (if ffn then Lmsg else Cmsg) && !m.shared
      ensures rc == 0 && m.kind == Lmsg ==>
                fresh(m.content) && contents == old(contents) + {m.content} && Holders(m.content) == {m}
      ensures forall c :: c in old(contents) ==> c in contents && Holders(c) == old(Holders(c))
    {
      if !ffn {
        m.kind, m.shared := Cmsg, false;
        handles := handles + {m};
        assert forall c :: c in contents ==> Holders(c) == old(Holders(c));
        OthersBalanced({});
        rc := 0;
      } else {
        rc := InitLong(m, memory);
      }
    }

    method InitLong(m: Handle, memory: bool) returns (rc: int)
      requires Valid() && (m in handles ==> m.kind != Lmsg)
      modifies this, m
      ensures Valid() && rc == (if memory then 0 else -1) && (rc == -1 ==> m.content == null)
      ensures handles == if rc == 0 then old(handles) + {m} else old(handles) - {m}
      ensures rc == 0 ==> m.kind == Lmsg && !m.shared && fresh(m.content)
                          && contents == old(contents) + {m.content} && Holders(m.content) == {m}
      ensures forall c :: c in old(contents) ==> c in contents && Holders(c) == old(Holders(c))
    {
      m.kind, m.shared := Lmsg, false;
      if !memory {
        m.content := null;
        handles := handles - {m};
        assert forall c :: c in contents ==> Holders(c) == old(Holders(c));
        OthersBalanced({});
        return -1;
      }
      m.content := new Content();
      contents := contents + {m.content};
      handles := handles + {m};
      Introduced(m, m.content);
      rc := 0;
    }

    // A new content has one unshared holder.
    twostate lemma Introduced(new m: Handle, new c: Content)
      requires old(Valid()) && (m in old(handles) ==> old(m.kind) != Lmsg)
      requires m.kind == Lmsg && !m.shared && m.content == c && c !in old(contents) && fresh(c) && c.freed == 0
      requires c.pending == 0
      requires contents == old(contents) + {c} && handles == old(handles) + {m}
      requires (forall h :: h in old(handles) && h != m ==> unchanged(h))
      requires forall d :: d in old(contents) ==> unchanged(d)
      ensures Valid() && Holders(c) == {m}
      ensures forall d :: d in old(contents) ==> Holders(d) == old(Holders(d))
    {
      assert forall h :: h in old(handles) && h.kind == Lmsg && h != m ==> h.content in old(contents);
      assert Holders(c) == {m};
      forall d | d in old(contents) ensures Holders(d) == old(Holders(d)) {}
      assert Balanced(c);
      OthersBalanced({c});
    }

    method InitDelimiter(m: Handle)
      requires Valid() && (m in handles ==> m.kind != Lmsg)
      modifies this`handles, m
      ensures Valid() && handles == old(handles) + {m} && m.kind == Delimiter && !m.shared
      ensures forall c :: c in contents ==> Holders(c) == old(Holders(c))
    {
      m.kind, m.shared := Delimiter, false;
      handles := handles + {m};
      assert forall c :: c in contents ==> Holders(c) == old(Holders(c));
      OthersBalanced({});
    }

    // The content goes with its last reference, and only then.
    method Close(m: Handle) returns (rc: int)
      requires Valid() && m in handles
      modifies m, m.content
      ensures Valid() && m.kind == Invalid && m.content == old(m.content) && m.shared == old(m.shared)
      ensures rc == if old(m.kind) == Invalid then -1 else 0
      ensures forall c :: c in contents ==> Holders(c) == old(Holders(c)) - {m}
      ensures forall c :: c in contents && (old(m.kind) != Lmsg || c != m.content) ==> unchanged(c)
      ensures old(m.kind) == Lmsg ==>
                m.content.pending == old(m.content.pending)
                && (m.content.freed == 1 <==> old(Holders(m.content)) == {m} && m.content.pending == 0)
    {
      if !m.Check() {
        rc := -1;
        assert forall c :: c in contents ==> m !in Holders(c);
      } else {
        if m.kind == Lmsg {
          CloseLong(m);
        } else {
          m.kind := Invalid;
          assert forall c :: c in contents ==> Holders(c) == old(Holders(c)) - {m};
          OthersBalanced({});
        }
        rc := 0;
      }
    }

    method CloseLong(m: Handle)
      requires Valid() && m in handles && m.kind == Lmsg
      modifies m`kind, m.content
      ensures Valid() && m.kind == Invalid
      ensures forall c :: c in contents ==> Holders(c) == old(Holders(c)) - {m}
      ensures forall c :: c in contents && c != m.content ==> unchanged(c)
      ensures m.content.pending == old(m.content.pending)
      ensures m.content.freed == 1 <==> old(Holders(m.content)) == {m} && m.content.pending == 0
    {
      var c := m.content;
      assert m in Holders(c);
      Without(Holders(c), m);
      var free := !m.shared;
      if m.shared {
        c.refcnt := c.refcnt - 1;
        free := c.refcnt == 0;
      }
      if free {
        c.freed := c.freed + 1;
      }
      m.kind := Invalid;
      Released(m, c);
      assert Balanced(c);
      OthersBalanced({c});
    }

    twostate lemma Released(new m: Handle, new c: Content)
      requires m in old(handles) && old(m.kind) == Lmsg && old(m.content) == c && m.kind == Invalid
      requires handles == old(handles) && contents == old(contents)
      requires forall h :: h in handles && h != m ==> unchanged(h)
      ensures Holders(c) == old(Holders(c)) - {m}
      ensures forall d :: d in old(contents) && d != c ==> m !in old(Holders(d)) && Holders(d) == old(Holders(d))
    {
    }

    // The handle takes over what src holds; src is left empty. Moving a handle onto itself empties it.
    method Move(m: Handle, src: Handle) returns (rc: int)
      requires Valid() && m in handles && src in handles
      modifies m, m.content, src
      ensures Valid() && (rc == 0 || rc == -1)
      ensures rc == 0 <==> old(src.kind) != Invalid && old(m.kind) != Invalid
      ensures rc == 0 ==> src.kind == Vsm && !src.shared
      ensures forall c :: c in contents ==> c.pending == old(c.pending)
      ensures rc == 0 && m != src ==>
                m.kind == old(src.kind) && m.content == old(src.content) && m.shared == old(src.shared)
      ensures rc == 0 && m != src ==> forall c :: c in contents ==>
                Holders(c) == if old(src.kind) == Lmsg && c == old(src.content) then old(Holders(c)) - {m, src} + {m}
                              else old(Holders(c)) - {m}
    {
      if !src.Check() {
        return -1;
      }
      rc := Close(m);
      if rc < 0 {
        return;
      }
      Assign(m, src);
      rc := 0;
    }

    // *this = src, and src.init: the reference changes hands.
    method Assign(m: Handle, src: Handle)
      requires Valid() && m in handles && src in handles && m.kind == Invalid
      modifies m, src
      ensures Valid() && src.kind == Vsm && !src.shared
      ensures m != src ==> m.kind == old(src.kind) && m.content == old(src.content) && m.shared == old(src.shared)
      ensures forall c :: c in contents ==>
                Holders(c) ==
                  if m != src && old(src.kind) == Lmsg && c == old(src.content) then old(Holders(c)) - {src} + {m}
                  else old(Holders(c))
    {
      m.kind, m.shared, m.content := src.kind, src.shared, src.content;
      src.kind, src.shared := Vsm, false;
      if m != src && m.kind == Lmsg {
        ghost var c := m.content;
        assert m in old(handles) && src in old(handles) && c in old(contents);
        Reassigned(m, src, c);
      } else {
        assert forall d :: d in contents ==> Holders(d) == old(Holders(d));
        OthersBalanced({});
      }
    }

    twostate lemma Reassigned(new m: Handle, new src: Handle, new c: Content)
      requires old(Valid()) && m in old(handles) && src in old(handles) && m != src && c in old(contents)
      requires handles == old(handles) && contents == old(contents) && forall d :: d in contents ==> unchanged(d)
      requires old(m.kind) != Lmsg && old(src.kind) == Lmsg && src.kind != Lmsg
      requires m.kind == Lmsg && m.content == c == old(src.content) && m.shared == old(src.shared)
      requires forall h :: h in handles && h != m && h != src ==> unchanged(h)
      ensures Valid() && Holders(c) == old(Holders(c)) - {src} + {m}
      ensures forall d :: d in contents && d != c ==> Holders(d) == old(Holders(d))
    {
      assert c in contents;
      forall d | d in contents && d != c ensures Holders(d) == old(Holders(d)) {}
      var was := old(Holders(c));
      assert Holders(c) == was - {src} + {m};
      Without(was, src);
      With(was - {src}, m);
      assert Balanced(c);
      OthersBalanced({c});
    }

    // Both handles share the content. Copying a handle onto itself closes it.
    method Copy(m: Handle, src: Handle) returns (rc: int)
      requires Valid() && m in handles && src in handles
      modifies m, m.content, src, src.content, this`handles
      ensures Valid() && (rc == 0 || rc == -1) && handles == old(handles)
      ensures rc == 0 <==> old(src.kind) != Invalid && old(m.kind) != Invalid
      ensures rc == 0 && m == src ==> m.kind == Invalid
      ensures rc == 0 && m != src ==>
                m.kind == src.kind == old(src.kind) && m.content == src.content == old(src.content)
                && m.shared == src.shared && (src.kind != Lmsg ==> src.shared == old(src.shared))
      ensures forall c :: c in contents ==> c.pending == old(c.pending)
      ensures forall c :: c in contents && (old(src.kind) != Lmsg || c != old(src.content)) ==>
                Holders(c) == if old(src.kind) != Invalid then old(Holders(c)) - {m} else old(Holders(c))
      ensures rc == 0 && m != src && src.kind == Lmsg ==>
                m.shared && src.shared && Holders(src.content) == old(Holders(src.content)) + {m}
                && src.content.freed == 0
    {
      rc := -1;
      if src.Check() {
        rc := Close(m);
        if rc == 0 && m != src {
          CopyFrom(m, src);
        }
      }
    }

    // The part of copy after close. A message not yet shared gets a count of 2, as from add_refs (1).
    method CopyFrom(m: Handle, src: Handle)
      requires Valid() && m in handles && src in handles && m != src && m.kind == Invalid
      modifies m, src, src.content, this`handles
      ensures Valid() && handles == old(handles)
      ensures m.kind == src.kind == old(src.kind) && m.content == src.content == old(src.content)
      ensures m.shared == src.shared && (src.kind != Lmsg ==> src.shared == old(src.shared))
      ensures forall c :: c in contents ==> c.pending == old(c.pending)
      ensures forall c :: c in contents && (src.kind != Lmsg || c != src.content) ==> Holders(c) == old(Holders(c))
      ensures src.kind == Lmsg ==>
                m.shared && src.shared && Holders(src.content) == old(Holders(src.content)) + {m}
                && src.content.freed == old(src.content.freed)
    {
      if src.kind == Lmsg {
        AddRefs(src, 1);
      }
      PodCopy(src, m);
    }

    // Makes room for n bitwise copies of the handle.
    method AddRefs(m: Handle, n: nat)
      requires Valid() && m in handles
      modifies m`shared, m.content
      ensures Valid() && forall c :: c in contents ==> Holders(c) == old(Holders(c))
      ensures forall c :: c in contents ==>
                c.freed == old(c.freed) && (m.kind != Lmsg || c != m.content ==> unchanged(c))
      ensures m.kind == Lmsg ==> m.content.pending == old(m.content.pending) + n && (n > 0 ==> m.shared)
    {
      if n > 0 && m.kind == Lmsg {
        var c := m.content;
        assert m in Holders(c);
        assert |Holders(c)| >= 1 by { assert Holders(c) == (Holders(c) - {m}) + {m}; }
        if m.shared {
          c.refcnt := c.refcnt + n;
        } else {
          SoleHolder(c, m);
          c.refcnt := n + 1;
          m.shared := true;
        }
        c.pending := c.pending + n;
        assert forall d :: d in contents ==> Holders(d) == old(Holders(d));
        OthersBalanced({c});
      }
    }

    lemma SoleHolder(c: Content, m: Handle)
      requires Valid() && c in contents && m in Holders(c) && !m.shared
      ensures Holders(c) == {m} && c.pending == 0
    {
      var rest := Holders(c) - {m};
      assert Holders(c) == rest + {m} && |Holders(c)| == |rest| + 1;
    }

    // A bitwise copy. It uses up a reference made by add_refs; when none is left, m's own reference
    // passes to the copy, and m may only be initialised again.
    method PodCopy(m: Handle, copy: Handle)
      requires Valid() && m in handles && m != copy && (copy in handles ==> copy.kind != Lmsg)
      modifies copy, this`handles, m.content
      ensures Valid() && copy.kind == m.kind && copy.shared == m.shared && copy.content == m.content
      ensures m.kind == Lmsg && old(m.content.pending) == 0 ==>
                handles == old(handles) - {m} + {copy} && Holders(m.content) == old(Holders(m.content)) - {m} + {copy}
                && m.content.pending == 0
      ensures m.kind == Lmsg && old(m.content.pending) > 0 ==>
                handles == old(handles) + {copy} && Holders(m.content) == old(Holders(m.content)) + {copy}
                && m.content.pending == old(m.content.pending) - 1
      ensures m.kind != Lmsg ==> handles == old(handles) + {copy}
      ensures forall c :: c in contents ==> c.freed == old(c.freed)
      ensures forall c :: c in contents && (m.kind != Lmsg || c != m.content) ==>
                Holders(c) == old(Holders(c)) && unchanged(c)
    {
      copy.kind, copy.shared, copy.content := m.kind, m.shared, m.content;
      ghost var c := m.content;
      if m.kind == Lmsg {
        if c.pending == 0 {
          handles := handles - {m} + {copy};
          HandedOver(m, copy, c);
        } else {
          c.pending := c.pending - 1;
          handles := handles + {copy};
          CopyCounted(m, copy);
        }
      } else {
        handles := handles + {copy};
        forall d | d in contents ensures Holders(d) == old(Holders(d)) {}
        OthersBalanced({});
      }
    }

    // What PodCopy leaves behind in the two cases.
    twostate lemma HandedOver(new m: Handle, new copy: Handle, new c: Content)
      requires old(Valid()) && m in old(handles) && m != copy && (copy in old(handles) ==> old(copy.kind) != Lmsg)
      requires unchanged(m) && m.kind == Lmsg && m.content == c && c.pending == 0
      requires forall h :: h in old(handles) && h != copy ==> unchanged(h)
      requires copy.kind == m.kind && copy.shared == m.shared && copy.content == m.content
      requires handles == old(handles) - {m} + {copy} && contents == old(contents)
      requires forall d :: d in contents ==> unchanged(d)
      ensures Valid() && Holders(c) == old(Holders(c)) - {m} + {copy}
      ensures forall d :: d in contents && d != c ==> Holders(d) == old(Holders(d))
    {
      assert c in contents;
      HandedOverHolders(m, copy, c);
      SameNumber(old(Holders(c)), m, copy);
      HandedOverBalanced(m, copy, c);
      OthersBalanced({c});
    }

    twostate lemma HandedOverBalanced(new m: Handle, new copy: Handle, new c: Content)
      requires c in old(contents) && old(Balanced(c)) && m in old(Holders(c)) && unchanged(c) && c.pending == 0
      requires Holders(c) == old(Holders(c)) - {m} + {copy} && |Holders(c)| == |old(Holders(c))|
      requires copy.shared == old(m.shared)
      requires forall h :: h in old(Holders(c)) && h != m ==> h.shared == old(h.shared)
      ensures Balanced(c)
    {
      hide Holders;
    }

    twostate lemma HandedOverHolders(new m: Handle, new copy: Handle, new c: Content)
      requires m in old(handles) && m != copy && (copy in old(handles) ==> old(copy.kind) != Lmsg)
      requires m.kind == Lmsg && m.content == c && forall h :: h in old(handles) && h != copy ==> unchanged(h)
      requires copy.kind == m.kind && copy.content == m.content
      requires handles == old(handles) - {m} + {copy} && contents == old(contents)
      ensures m in old(Holders(c)) && copy !in old(Holders(c)) && Holders(c) == old(Holders(c)) - {m} + {copy}
      ensures forall d :: d in contents && d != c ==> Holders(d) == old(Holders(d))
    {
      forall h ensures h in Holders(c) <==> (h in old(Holders(c)) && h != m) || h == copy {}
      forall d | d in contents && d != c ensures Holders(d) == old(Holders(d)) {}
    }

    twostate lemma CopyCounted(new m: Handle, new copy: Handle)
      requires old(Valid()) && m in old(handles) && m != copy && (copy in old(handles) ==> old(copy.kind) != Lmsg)
      requires unchanged(m) && m.kind == Lmsg && forall h :: h in old(handles) && h != copy ==> unchanged(h)
      requires copy.kind == m.kind && copy.shared == m.shared && copy.content == m.content
      requires handles == old(handles) + {copy} && contents == old(contents)
      requires forall d :: d in contents && d != m.content ==> unchanged(d)
      requires var c := m.content;
               old(c.pending) > 0 && c.pending == old(c.pending) - 1 && c.refcnt == old(c.refcnt)
               && c.freed == old(c.freed)
      ensures Valid() && Holders(m.content) == old(Holders(m.content)) + {copy}
      ensures forall d :: d in contents && d != m.content ==> Holders(d) == old(Holders(d))
    {
      var c := m.content;
      forall d | d in contents && d != c ensures Holders(d) == old(Holders(d)) {}
      assert Holders(c) == old(Holders(c)) + {copy};
      assert m in old(Holders(c)) && copy !in old(Holders(c));
      With(old(Holders(c)), copy);
      assert Balanced(c);
      OthersBalanced({c});
    }

    // Gives back n of the references of add_refs, or those and m's own. In the second case m may only
    // be initialised again. The result is false when the content was freed or the handle closed; the
    // handle is closed then exactly if it did not share a content.
    method RmRefs(m: Handle, n: nat) returns (left: bool)
      requires Valid() && m in handles && (m.kind == Lmsg ==> n <= m.content.pending + 1)
      modifies m, m.content, this`handles
      ensures Valid() && m.content == old(m.content)
      ensures n == 0 ==> left && handles == old(handles) && unchanged(m) && (m.content != null ==> unchanged(m.content))
      ensures n > 0 && old(m.kind) != Lmsg ==> !left && m.kind == Invalid && handles == old(handles)
      ensures n > 0 && old(m.kind) == Lmsg && n <= old(m.content.pending) ==>
                left && handles == old(handles) && m.content.pending == old(m.content.pending) - n
                && m.content.freed == old(m.content.freed)
      ensures n > 0 && old(m.kind) == Lmsg && n == old(m.content.pending) + 1 ==>
                (m !in handles || m.kind == Invalid) && handles + {m} == old(handles) && m.content.pending == 0
                && Holders(m.content) == old(Holders(m.content)) - {m}
                && (m.content.freed == 1 <==> old(Holders(m.content)) == {m}) && (left <==> m.content.freed == 0)
      ensures !left ==> (m.kind == Invalid <==> !(old(m.kind) == Lmsg && old(m.shared)))
      ensures old(m.kind) == Lmsg && old(m.shared) ==> m.kind == Lmsg && m.shared
      ensures forall c :: c in contents && (old(m.kind) != Lmsg || c != m.content) ==>
                Holders(c) == old(Holders(c)) && unchanged(c)
    {
      if n == 0 {
        left := true;
      } else if m.kind != Lmsg || !m.shared {
        if m.kind == Lmsg { SoleHolder(m.content, m); }
        var rc := Close(m);
        left := false;
      } else {
        left := Discount(m, n);
      }
    }

    // The last reference of a shared content: it is freed, and the handle still names it.
    method RmLastReference(m: Handle) returns (left: bool)
      requires Valid() && m in handles && m.kind == Lmsg && m.shared
      requires Holders(m.content) == {m} && m.content.pending == 0
      modifies m, m.content, this`handles
      ensures Valid() && !left && m.content == old(m.content) && m.content.freed == 1 && m.kind == Lmsg
    {
      left := RmRefs(m, 1);
    }

    method Discount(m: Handle, n: nat) returns (left: bool)
      requires Valid() && m in handles && m.kind == Lmsg && m.shared && 0 < n <= m.content.pending + 1
      modifies m.content, this`handles
      ensures Valid()
      ensures n <= old(m.content.pending) ==>
                left && handles == old(handles) && m.content.pending == old(m.content.pending) - n
                && m.content.freed == old(m.content.freed)
      ensures n == old(m.content.pending) + 1 ==>
                handles == old(handles) - {m} && m.content.pending == 0
                && Holders(m.content) == old(Holders(m.content)) - {m}
                && (m.content.freed == 1 <==> old(Holders(m.content)) == {m}) && (left <==> m.content.freed == 0)
      ensures forall c :: c in contents && c != m.content ==> Holders(c) == old(Holders(c)) && unchanged(c)
    {
      var c := m.content;
      assert m in Holders(c) && Counted(c);
      Without(Holders(c), m);
      if n <= c.pending {
        c.pending := c.pending - n;
      } else {
        c.pending := 0;
        handles := handles - {m};
      }
      c.refcnt := c.refcnt - n;
      left := c.refcnt > 0;
      if c.refcnt == 0 {
        c.freed := c.freed + 1;
      }
      assert Holders(c) == if n <= old(c.pending) then old(Holders(c)) else old(Holders(c)) - {m};
      assert c.refcnt == |Holders(c)| + c.pending;
      assert forall h :: h in Holders(c) ==> h in old(Holders(c)) && h.shared;
      forall d | d in contents && d != c ensures Holders(d) == old(Holders(d)) {}
      assert Balanced(c);
      OthersBalanced({c});
    }

    // dist_t's use of the counter: one reference for each pipe, a bitwise copy into each pipe that
    // accepts, the references of the others given back, and the original left empty. accepts tells
    // which pipes accept.
    method Fanout(m: Handle, accepts: seq<bool>) returns (copies: set<Handle>)
      requires Valid() && m in handles && |accepts| > 0 && m.kind != Vsm && m.kind != Invalid
      requires m.kind == Lmsg ==> m.content.pending == 0
      modifies this`handles, m, m.content
      ensures Valid() && m in handles && m.kind == Vsm
      ensures |copies| == Accepted(accepts) && handles == old(handles) + copies && fresh(copies)
      ensures forall h :: h in copies ==> h.kind == old(m.kind) && h.content == old(m.content)
      ensures old(m.kind) == Lmsg ==>
                var c := old(m.content);
                c.pending == 0 && Holders(c) == old(Holders(c)) - {m} + copies && (c.freed == 1 <==> Holders(c) == {})
      ensures forall c :: c in contents && (old(m.kind) != Lmsg || c != old(m.content)) ==>
                Holders(c) == old(Holders(c)) && unchanged(c)
    {
      hide Valid, Holders, Fanned, Accepted;
      Held(m);
      ghost var holders, all := if m.kind == Lmsg then Holders(m.content) else {}, handles;
      FannedNone(all, m);
      FannedNone(holders, m);
      AddRefs(m, |accepts| - 1);
      var failed;
      copies, failed := FanLoop(m, accepts, holders, all);
      FanFinish(m, copies, failed, holders, all);
    }

    method FanFinish(m: Handle, copies: set<Handle>, failed: nat, ghost holders: set<Handle>, ghost all: set<Handle>)
      requires Valid() && FanningOut(m, copies, failed, holders, all) && m in all && (m.kind == Lmsg ==> m in holders)
      requires failed == 0 ==> copies != {}
      modifies this`handles, m, m.content
      ensures Valid() && m.kind == Vsm && handles == all + copies
      ensures old(m.kind) == Lmsg ==>
                var c := old(m.content);
                c.pending == 0 && Holders(c) == holders - {m} + copies && (c.freed == 1 <==> Holders(c) == {})
      ensures forall c :: c in contents && (old(m.kind) != Lmsg || c != old(m.content)) ==>
                Holders(c) == old(Holders(c)) && unchanged(c)
    {
      hide Valid, Holders, Fanned;
      FannedLast(all, m, copies, m.kind == Lmsg && failed == 0);
      FannedLast(holders, m, copies, failed == 0);
      FanEnd(m, failed);
    }

    method FanLoop(m: Handle, accepts: seq<bool>, ghost holders: set<Handle>, ghost all: set<Handle>)
      returns (copies: set<Handle>, failed: nat)
      requires Valid() && FanningOut(m, {}, |accepts|, holders, all)
      modifies this`handles, m.content
      ensures Valid() && FanningOut(m, copies, failed, holders, all) && fresh(copies)
      ensures |copies| == Accepted(accepts) && |copies| + failed == |accepts|
      ensures forall c :: c in contents && (m.kind != Lmsg || c != m.content) ==>
                Holders(c) == old(Holders(c)) && unchanged(c)
    {
      hide Valid, Holders, Fanned;
      copies, failed := {}, 0;
      var i := 0;
      while i < |accepts|
        invariant i <= |accepts| && failed + |copies| == i && |copies| == Accepted(accepts[..i]) && fresh(copies)
        invariant Valid() && FanningOut(m, copies, |accepts| - |copies|, holders, all)
        invariant forall c :: c in contents && (m.kind != Lmsg || c != m.content) ==>
                  Holders(c) == old(Holders(c)) && unchanged(c)
      {
        assert accepts[..i + 1][..i] == accepts[..i];
        if accepts[i] {
          copies := FanCopy(m, copies, |accepts| - |copies|, holders, all);
        } else {
          failed := failed + 1;
        }
        i := i + 1;
      }
      assert accepts[..i] == accepts;
    }

    lemma Held(m: Handle)
      requires Valid() && m in handles
      ensures m.kind == Lmsg ==>
                m.content != null && m.content in contents && m in Holders(m.content) && m.content.freed == 0
    {
      assert m.kind == Lmsg ==> m in Holders(m.content);
    }

    // In the middle of a fan-out: the copies made so far, and how many references are left, m's own
    // included; all and holders are the handles and the holders of the content before it.
    ghost predicate FanningOut(m: Handle, copies: set<Handle>, left: int, holders: set<Handle>, all: set<Handle>)
      reads this, handles, m, m.content, copies
    {
      && left >= 0 && m !in copies && (left > 0 || m.kind != Lmsg ==> m in handles)
      && handles == Fanned(all, m, copies, m.kind == Lmsg && left == 0)
      && (forall h :: h in copies ==> h.kind == m.kind && h.content == m.content)
      && (m.kind == Lmsg ==>
            m.content != null && m.content in contents && m.content.freed == 0
            && m.content.pending == (if left == 0 then 0 else left - 1)
            && Holders(m.content) == Fanned(holders, m, copies, left == 0))
    }

    method FanCopy(m: Handle, copies: set<Handle>, ghost left: int, ghost holders: set<Handle>, ghost all: set<Handle>)
      returns (more: set<Handle>)
      requires Valid() && left > 0 && FanningOut(m, copies, left, holders, all)
      modifies this`handles, m.content
      ensures Valid() && |more| == |copies| + 1 && FanningOut(m, more, left - 1, holders, all)
      ensures copies <= more && fresh(more - copies)
      ensures forall c :: c in contents && (m.kind != Lmsg || c != m.content) ==>
                Holders(c) == old(Holders(c)) && unchanged(c)
    {
      var copy := new Handle();
      assert Valid() && FanningOut(m, copies, left, holders, all);
      assert forall c :: c in contents ==> Holders(c) == old(Holders(c));
      more := FanInto(m, copy, copies, left, holders, all);
    }

    method FanInto(
      m: Handle, copy: Handle, copies: set<Handle>, ghost left: int, ghost holders: set<Handle>, ghost all: set<Handle>)
      returns (more: set<Handle>)
      requires Valid() && left > 0 && FanningOut(m, copies, left, holders, all)
      requires copy != m && copy !in copies && copy !in handles
      modifies copy, this`handles, m.content
      ensures Valid() && more == copies + {copy} && |more| == |copies| + 1
      ensures FanningOut(m, more, left - 1, holders, all)
      ensures forall c :: c in contents && (m.kind != Lmsg || c != m.content) ==>
                Holders(c) == old(Holders(c)) && unchanged(c)
    {
      hide Valid, Holders, Fanned;
      With(copies, copy);
      FannedNext(all, m, copies, copy);
      FannedNext(holders, m, copies, copy);
      PodCopy(m, copy);
      more := copies + {copy};
    }

    // rm_refs for the pipes that refused, and the original detached from its content.
    method FanEnd(m: Handle, failed: nat)
      requires Valid() && (failed > 0 ==> m in handles) && (m.kind == Lmsg && failed == 0 ==> m !in handles)
      requires m.kind == Lmsg ==>
                 m.content != null && m.content in contents && m.content.freed == 0
                 && m.content.pending == (if failed > 0 then failed - 1 else 0)
                 && (failed == 0 ==> Holders(m.content) != {})
      modifies this`handles, m, m.content
      ensures Valid() && m.kind == Vsm && handles == old(handles) + {m}
      ensures old(m.kind) == Lmsg ==>
                var c := old(m.content);
                c.pending == 0 && Holders(c) == old(Holders(c)) - {m} && (c.freed == 1 <==> Holders(c) == {})
      ensures forall d :: d in contents && (old(m.kind) != Lmsg || d != old(m.content)) ==>
                Holders(d) == old(Holders(d)) && unchanged(d)
    {
      ghost var c := m.content;
      if failed > 0 {
        var left := RmRefs(m, failed);
      }
      label Removed:
      Init(m);
    }
  }

  function Accepted(accepts: seq<bool>): nat
  {
    if accepts == [] then 0 else Accepted(accepts[..|accepts| - 1]) + if accepts[|accepts| - 1] then 1 else 0
  }
}
