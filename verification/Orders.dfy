/**
 * The order of the register's maps: what deriving an order on the identity
 * types gives, field by field and variant by variant. Strings compare by code
 * point, which is how their UTF-8 bytes compare.
 */
module Orders {
  import opened Identity

  // Lexicographic order, a proper prefix first.
  predicate SeqLess(a: seq<int>, b: seq<int>) {
    b != [] && (a == [] || a[0] < b[0] || (a[0] == b[0] && SeqLess(a[1..], b[1..])))
  }

  lemma {:induction false} SeqTotal(a: seq<int>, b: seq<int>)
    ensures SeqLess(a, b) || a == b || SeqLess(b, a)
    ensures !(SeqLess(a, b) && SeqLess(b, a)) && (a == b ==> !SeqLess(a, b))
    decreases |a|
  {
    if a != [] && b != [] && a[0] == b[0] {
      SeqTotal(a[1..], b[1..]);
      assert a == [a[0]] + a[1..] && b == [b[0]] + b[1..];
    }
  }

  // The first difference decides, and a proper prefix comes first.
  lemma {:induction false} SeqLessExactly(a: seq<int>, b: seq<int>)
    ensures SeqLess(a, b) <==> (a < b) || exists i :: DiffersFirstAt(a, b, i)
    decreases |a|
  {
    if a != [] && b != [] && a[0] == b[0] {
      SeqLessExactly(a[1..], b[1..]);
      assert a == [a[0]] + a[1..] && b == [b[0]] + b[1..];
      if i :| DiffersFirstAt(a[1..], b[1..], i) {
        assert a[..i + 1] == [a[0]] + a[1..][..i] && b[..i + 1] == [b[0]] + b[1..][..i];
        assert DiffersFirstAt(a, b, i + 1);
      }
      if i :| DiffersFirstAt(a, b, i) {
        assert i > 0 && a[1..][..i - 1] == a[..i][1..] && b[1..][..i - 1] == b[..i][1..];
        assert DiffersFirstAt(a[1..], b[1..], i - 1);
      }
    } else if a != [] && b != [] {
      if a[0] < b[0] { assert DiffersFirstAt(a, b, 0); }
      if i :| DiffersFirstAt(a, b, i) {
        if i > 0 { assert a[..i][0] == b[..i][0]; }
      }
    }
  }

  // Equal up to `i`, and less there.
  ghost predicate DiffersFirstAt(a: seq<int>, b: seq<int>, i: int) {
    0 <= i < |a| && i < |b| && a[..i] == b[..i] && a[i] < b[i]
  }

  lemma {:induction false} SeqTransitive(a: seq<int>, b: seq<int>, c: seq<int>)
    requires SeqLess(a, b) && SeqLess(b, c)
    ensures SeqLess(a, c)
    decreases |a|
  {
    if a != [] && a[0] == b[0] == c[0] {
      SeqTransitive(a[1..], b[1..], c[1..]);
    }
  }

  function Codes(s: string): (codes: seq<int>)
    ensures |codes| == |s| && forall i :: 0 <= i < |s| ==> codes[i] == s[i] as int
  {
    seq(|s|, i requires 0 <= i < |s| => s[i] as int)
  }

  predicate StringLess(a: string, b: string) { SeqLess(Codes(a), Codes(b)) }

  lemma StringTotal(a: string, b: string)
    ensures StringLess(a, b) || a == b || StringLess(b, a)
    ensures !(StringLess(a, b) && StringLess(b, a)) && (a == b ==> !StringLess(a, b))
  {
    SeqTotal(Codes(a), Codes(b));
    if Codes(a) == Codes(b) {
      assert forall i :: 0 <= i < |a| ==> a[i] as int == Codes(a)[i] == Codes(b)[i] == b[i] as int;
      assert a == b;
    }
  }

  lemma StringTransitive(a: string, b: string, c: string)
    requires StringLess(a, b) && StringLess(b, c)
    ensures StringLess(a, c)
  {
    SeqTransitive(Codes(a), Codes(b), Codes(c));
  }

  function Variant(r: Recipient): nat {
    match r
    case Admin => 0
    case Agent(_, _) => 1
    case Headless(_) => 2
  }

  predicate EndpointLess(a: Recipient, b: Recipient) {
    if Variant(a) != Variant(b) then Variant(a) < Variant(b)
    else match a
      case Admin => false
      case Agent(session, pane) => if session != b.session then SeqLess(session, b.session) else pane < b.pane
      case Headless(instance) => SeqLess(instance, b.instance)
  }

  predicate RecipientLess(a: RecipientKey, b: RecipientKey) {
    if a.workspace != b.workspace then SeqLess(a.workspace, b.workspace) else EndpointLess(a.recipient, b.recipient)
  }

  // By workspace first; within one the administrator, then agents by session and
  // pane, then headless agents.
  lemma RecipientOrder(v: DurableId, w: DurableId, r: Recipient, s: Recipient)
    ensures v != w ==> (RecipientLess(RecipientKey(v, r), RecipientKey(w, s)) <==> SeqLess(v, w))
    ensures r.Admin? && !s.Admin? ==> RecipientLess(RecipientKey(w, r), RecipientKey(w, s))
    ensures r.Agent? && s.Headless? ==> RecipientLess(RecipientKey(w, r), RecipientKey(w, s))
    ensures r.Agent? && s.Agent? ==>
      (RecipientLess(RecipientKey(w, r), RecipientKey(w, s)) <==>
         SeqLess(r.session, s.session) || (r.session == s.session && r.pane < s.pane))
    ensures r.Headless? && s.Headless? ==>
      (RecipientLess(RecipientKey(w, r), RecipientKey(w, s)) <==> SeqLess(r.instance, s.instance))
  {
    if r.Agent? && s.Agent? { SeqTotal(r.session, s.session); }
  }

  lemma EndpointTotal(a: Recipient, b: Recipient)
    ensures EndpointLess(a, b) || a == b || EndpointLess(b, a)
    ensures !(EndpointLess(a, b) && EndpointLess(b, a)) && (a == b ==> !EndpointLess(a, b))
  {
    if a.Agent? && b.Agent? { SeqTotal(a.session, b.session); }
    if a.Headless? && b.Headless? { SeqTotal(a.instance, b.instance); }
  }

  lemma EndpointTransitive(a: Recipient, b: Recipient, c: Recipient)
    requires EndpointLess(a, b) && EndpointLess(b, c)
    ensures EndpointLess(a, c)
  {
    if a.Agent? && b.Agent? && c.Agent? {
      SeqTotal(a.session, b.session);
      if a.session != b.session && b.session != c.session { SeqTransitive(a.session, b.session, c.session); }
      SeqTotal(a.session, c.session);
    }
    if a.Headless? && b.Headless? && c.Headless? { SeqTransitive(a.instance, b.instance, c.instance); }
  }

  lemma RecipientTotal(a: RecipientKey, b: RecipientKey)
    ensures RecipientLess(a, b) || a == b || RecipientLess(b, a)
    ensures !(RecipientLess(a, b) && RecipientLess(b, a)) && (a == b ==> !RecipientLess(a, b))
  {
    SeqTotal(a.workspace, b.workspace);
    EndpointTotal(a.recipient, b.recipient);
  }

  lemma RecipientTransitive(a: RecipientKey, b: RecipientKey, c: RecipientKey)
    requires RecipientLess(a, b) && RecipientLess(b, c)
    ensures RecipientLess(a, c)
  {
    SeqTotal(a.workspace, b.workspace);
    if a.workspace == b.workspace == c.workspace {
      EndpointTransitive(a.recipient, b.recipient, c.recipient);
    } else if a.workspace != b.workspace && b.workspace != c.workspace {
      SeqTransitive(a.workspace, b.workspace, c.workspace);
      SeqTotal(a.workspace, c.workspace);
    }
  }
}
