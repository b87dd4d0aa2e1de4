/** _IncludeState of build-support/cpplint.py: which order of #include lines is
    accepted, as a state machine over sections and as a regular language.
 */
module IncludeOrder {
  import opened Basics

  datatype HeaderKind = CSystem | CppSystem | LikelyMy | PossibleMy | Other

  // The sections, numbered as in the source.
  const INITIAL: nat := 0
  const MY_H: nat := 1
  const C: nat := 2
  const CPP: nat := 3
  const OTHER_H: nat := 4

  predicate IsMy(k: HeaderKind) { k.LikelyMy? || k.PossibleMy? }

  predicate IsSection(s: nat) { s <= OTHER_H }

  /** The section after a header, or None if the header is out of order. */
  function Next(section: nat, k: HeaderKind): (r: Option<nat>) {
    match k
    case CSystem => if section <= C then Some(C) else None
    case CppSystem => if section <= CPP then Some(CPP) else None
    case Other => Some(OTHER_H)
    case _ => Some(if section <= MY_H then MY_H else OTHER_H)
  }

  class IncludeState {
    var section: nat
    var lastHeader: string

    constructor ()
      ensures section == INITIAL && lastHeader == ""
    {
      section, lastHeader := INITIAL, "";
    }

    method ResetSection()
      modifies this
      ensures section == INITIAL && lastHeader == ""
    {
      section, lastHeader := INITIAL, "";
    }

    /** True when the header is in order. An error leaves the section alone; an error
        or a new section forgets the last header. */
    method CheckNextIncludeOrder(k: HeaderKind) returns (ok: bool)
      modifies this
      ensures ok <==> Next(old(section), k).Some?
      ensures section == if ok then Next(old(section), k).value else old(section)
      ensures lastHeader == if ok && section == old(section) then old(lastHeader) else ""
    {
      var lastSection := section;
      if k.CSystem? {
        if section <= C {
          section := C;
        } else {
          lastHeader := "";
          return false;
        }
      } else if k.CppSystem? {
        if section <= CPP {
          section := CPP;
        } else {
          lastHeader := "";
          return false;
        }
      } else if k.LikelyMy? {
        section := if section <= MY_H then MY_H else OTHER_H;
      } else if k.PossibleMy? {
        section := if section <= MY_H then MY_H else OTHER_H;
      } else {
        section := OTHER_H;
      }
      if lastSection != section { lastHeader := ""; }
      return true;
    }

    /** All headers between two resets: how many of them are reported. */
    method CheckAll(kinds: seq<HeaderKind>) returns (errors: nat)
      modifies this
      ensures section == After(old(section), kinds)
      ensures errors == 0 <==> Accepts(old(section), kinds)
    {
      errors := 0;
      for i := 0 to |kinds|
        invariant After(section, kinds[i..]) == After(old(section), kinds)
        invariant errors == 0 ==> (Accepts(section, kinds[i..]) <==> Accepts(old(section), kinds))
        invariant errors > 0 ==> !Accepts(old(section), kinds)
      {
        assert kinds[i..][1..] == kinds[i + 1..];
        var ok := CheckNextIncludeOrder(kinds[i]);
        if !ok { errors := errors + 1; }
      }
    }
  }

  /** The section after a run, errors included. */
  function After(section: nat, kinds: seq<HeaderKind>): (r: nat)
    decreases |kinds|
  {
    if kinds == [] then section
    else
      var next := Next(section, kinds[0]);
      After(if next.Some? then next.value else section, kinds[1..])
  }

  predicate Accepts(section: nat, kinds: seq<HeaderKind>)
    decreases |kinds|
  {
    kinds == [] ||
    var next := Next(section, kinds[0]);
    next.Some? && Accepts(next.value, kinds[1..])
  }

  /** Between resets the section never decreases. */
  lemma {:induction false} SectionNeverDecreases(section: nat, u: seq<HeaderKind>, v: seq<HeaderKind>)
    requires IsSection(section)
    ensures section <= After(section, u) <= After(section, u + v) <= OTHER_H
    decreases |u| + |v|
  {
    if u != [] {
      assert (u + v)[1..] == u[1..] + v;
      var next := Next(section, u[0]);
      SectionNeverDecreases(if next.Some? then next.value else section, u[1..], v);
    } else if v != [] {
      assert u + v == v;
      var next := Next(section, v[0]);
      SectionNeverDecreases(if next.Some? then next.value else section, [], v[1..]);
      assert [] + v[1..] == v[1..];
    }
  }

  /** kinds is MY^i, then C up to j, then CPP up to k, then MY or OTHER. */
  predicate SplitAt(kinds: seq<HeaderKind>, i: nat, j: nat, k: nat) {
    && i <= j <= k <= |kinds|
    && (forall n :: 0 <= n < i ==> IsMy(kinds[n]))
    && (forall n :: i <= n < j ==> kinds[n].CSystem?)
    && (forall n :: j <= n < k ==> kinds[n].CppSystem?)
    && (forall n :: k <= n < |kinds| ==> IsMy(kinds[n]) || kinds[n].Other?)
  }

  /** The language MY* C* CPP* (MY | OTHER)*. */
  ghost predicate InLanguage(kinds: seq<HeaderKind>) {
    exists i: nat, j: nat, k: nat :: SplitAt(kinds, i, j, k)
  }

  /** The part of a split that may still be used from a section on. */
  predicate Fits(section: nat, i: nat, j: nat, k: nat) {
    && (section > MY_H ==> i == 0)
    && (section > C ==> j == 0)
    && (section > CPP ==> k == 0)
  }

  lemma {:induction false} AcceptsSplits(section: nat, kinds: seq<HeaderKind>) returns (i: nat, j: nat, k: nat)
    requires Accepts(section, kinds)
    ensures SplitAt(kinds, i, j, k) && Fits(section, i, j, k)
    decreases |kinds|
  {
    i, j, k := 0, 0, 0;
    if kinds != [] {
      i, j, k := AcceptsSplits(Next(section, kinds[0]).value, kinds[1..]);
      if kinds[0].CSystem? {
        j, k := j + 1, k + 1;
      } else if kinds[0].CppSystem? {
        k := k + 1;
      } else if IsMy(kinds[0]) && section <= MY_H {
        i, j, k := i + 1, j + 1, k + 1;
      }
      forall n | 0 < n < |kinds| ensures kinds[n] == kinds[1..][n - 1] {}
    }
  }

  lemma {:induction false} SplitAccepts(section: nat, kinds: seq<HeaderKind>, i: nat, j: nat, k: nat)
    requires SplitAt(kinds, i, j, k) && Fits(section, i, j, k)
    ensures Accepts(section, kinds)
    decreases |kinds|
  {
    if kinds != [] {
      var i', j', k' := if i > 0 then i - 1 else 0, if j > 0 then j - 1 else 0, if k > 0 then k - 1 else 0;
      forall n | 0 < n < |kinds| ensures kinds[n] == kinds[1..][n - 1] {}
      SplitAccepts(Next(section, kinds[0]).value, kinds[1..], i', j', k');
    }
  }

  /** The headers between two resets raise no error exactly if they are in the language. */
  lemma {:induction false} AcceptedLanguage(kinds: seq<HeaderKind>)
    ensures Accepts(INITIAL, kinds) <==> InLanguage(kinds)
  {
    if Accepts(INITIAL, kinds) {
      var i, j, k := AcceptsSplits(INITIAL, kinds);
    }
    if InLanguage(kinds) {
      var i: nat, j: nat, k: nat :| SplitAt(kinds, i, j, k);
      SplitAccepts(INITIAL, kinds, i, j, k);
    }
  }
}
