/** The share registry: the ordered list of shares the server holds (the global `Shares`
    slice of quickshare.go), with lookup by name, existence test and order-preserving
    removal. The functions below say what the operations mean; the class Registry holds the
    list and runs the loops of the Go code against them. */
module Registry {
  import opened Shares

  /** Some share in `s` is called `name`. */
  predicate HasName(s: seq<Share>, name: string) {
    exists i | 0 <= i < |s| :: s[i].name == name
  }

  /** `i` is the position of the first share in `s` called `name`. */
  predicate IsFirst(s: seq<Share>, name: string, i: int) {
    0 <= i < |s| && s[i].name == name && forall j :: 0 <= j < i ==> s[j].name != name
  }

  /** No two shares in `s` have the same name. */
  predicate Unique(s: seq<Share>) {
    forall i, j :: 0 <= i < j < |s| ==> s[i].name != s[j].name
  }

  /** The position of the first share called `name`, or -1 when there is none. */
  function FindIndex(s: seq<Share>, name: string): (i: int)
    ensures -1 <= i < |s|
    ensures 0 <= i ==> IsFirst(s, name, i)
    ensures i < 0 <==> !HasName(s, name)
  {
    if s == [] then -1
    else if s[0].name == name then 0
    else
      var j := FindIndex(s[1..], name);
      assert forall k :: 0 <= k < |s| - 1 ==> s[1..][k] == s[k + 1];
      if j < 0 then -1 else j + 1
  }

  /** There is only one first position. */
  lemma FirstIsUnique(s: seq<Share>, name: string, i: int, j: int)
    requires IsFirst(s, name, i) && IsFirst(s, name, j)
    ensures i == j
  {
  }

  /** getShare: the first share called `name`, or NoShare. */
  function Lookup(s: seq<Share>, name: string): (r: Share)
    ensures HasName(s, name) ==> r.name == name && r == s[FindIndex(s, name)]
    ensures !HasName(s, name) ==> r == NoShare
  {
    var i := FindIndex(s, name);
    if i < 0 then NoShare else s[i]
  }

  /** In a registry without duplicates, the share found is the only one with its name. */
  lemma LookupUnique(s: seq<Share>, name: string, k: int)
    requires Unique(s) && 0 <= k < |s| && s[k].name == name
    ensures Lookup(s, name) == s[k]
  {
    var i := FindIndex(s, name);
    assert i == k;
  }

  /** RemoveShare on the list: drop the first share called `name`, keeping the order of the
      others; a list without that name is returned unchanged. */
  function Remove(s: seq<Share>, name: string): (r: seq<Share>)
    ensures !HasName(s, name) ==> r == s
    ensures HasName(s, name) ==> |r| == |s| - 1
    ensures HasName(s, name) ==>
              var i := FindIndex(s, name);
              (forall k :: 0 <= k < i ==> r[k] == s[k])
              && (forall k :: i <= k < |r| ==> r[k] == s[k + 1])
  {
    var i := FindIndex(s, name);
    if i < 0 then s else s[..i] + s[i + 1..]
  }

  /** Removal keeps the list free of duplicates, and once a name was unique, removing it
      leaves no share of that name behind. */
  lemma {:induction false} RemovePreservesUnique(s: seq<Share>, name: string)
    requires Unique(s)
    ensures Unique(Remove(s, name))
    ensures !HasName(Remove(s, name), name)
  {
    var r := Remove(s, name);
    if HasName(s, name) {
      var i := FindIndex(s, name);
      forall a, b | 0 <= a < b < |r| ensures r[a].name != r[b].name {
        var a' := if a < i then a else a + 1;
        var b' := if b < i then b else b + 1;
        assert r[a] == s[a'] && r[b] == s[b'];
      }
      forall k | 0 <= k < |r| ensures r[k].name != name {
        var k' := if k < i then k else k + 1;
        assert r[k] == s[k'];
        assert k' != i;
      }
    }
  }

  /** Removal does not touch the shares of any other name. */
  lemma RemoveKeepsOthers(s: seq<Share>, name: string, other: string)
    requires other != name
    ensures HasName(Remove(s, name), other) == HasName(s, other)
    ensures Lookup(Remove(s, name), other) == Lookup(s, other)
  {
    var r := Remove(s, name);
    if HasName(s, name) {
      var i := FindIndex(s, name);
      if HasName(s, other) {
        var j := FindIndex(s, other);
        var j' := if j < i then j else j - 1;
        assert r[j'] == s[j];
        assert IsFirst(r, other, j') by {
          forall k | 0 <= k < j' ensures r[k].name != other {
            if k < i { assert r[k] == s[k]; } else { assert r[k] == s[k + 1]; }
          }
        }
        FirstIsUnique(r, other, j', FindIndex(r, other));
      } else {
        forall k | 0 <= k < |r| ensures r[k].name != other {
          if k < i { assert r[k] == s[k]; } else { assert r[k] == s[k + 1]; }
        }
      }
    }
  }

  /** Appending a share whose name is new keeps the list free of duplicates. */
  lemma AppendPreservesUnique(s: seq<Share>, x: Share)
    requires Unique(s) && !HasName(s, x.name)
    ensures Unique(s + [x])
  {
    var r := s + [x];
    forall i, j | 0 <= i < j < |r| ensures r[i].name != r[j].name {
      if j == |s| { assert r[i] == s[i]; }
    }
  }

  /** The registry the server process owns. Each method is one atomic step on it. */
  class Registry {
    var shares: seq<Share>

    /** The invariant the control protocol keeps: no duplicate names. */
    ghost predicate Valid()
      reads this
    {
      Unique(shares)
    }

    constructor (initial: seq<Share>)
      ensures shares == initial
    {
      shares := initial;
    }

    /** getShare: scans the list in order and returns the first share called `name`. */
    method GetShare(name: string) returns (r: Share)
      ensures r == Lookup(shares, name)
      ensures HasName(shares, name) <==> r.name == name && r in shares
    {
      var i := 0;
      while i < |shares|
        invariant 0 <= i <= |shares|
        invariant forall j :: 0 <= j < i ==> shares[j].name != name
      {
        if shares[i].name == name {
          FirstIsUnique(shares, name, i, FindIndex(shares, name));
          return shares[i];
        }
        i := i + 1;
      }
      return NoShare;
    }

    /** ShareExists: whether some share is called `name`. */
    method ShareExists(name: string) returns (b: bool)
      ensures b <==> HasName(shares, name)
    {
      var i := 0;
      while i < |shares|
        invariant 0 <= i <= |shares|
        invariant forall j :: 0 <= j < i ==> shares[j].name != name
      {
        if shares[i].name == name {
          return true;
        }
        i := i + 1;
      }
      return false;
    }

    /** The append of serverHandle's `add`: `s` goes at the end of the list. The caller has
        checked that its name is new, which keeps the list free of duplicates. */
    method Append(s: Share)
      modifies this
      ensures shares == old(shares) + [s]
      ensures old(Valid()) && !HasName(old(shares), s.name) ==> Valid()
    {
      if Unique(shares) && !HasName(shares, s.name) {
        AppendPreservesUnique(shares, s);
      }
      shares := shares + [s];
    }

    /** RemoveShare: deletes the first share called `name` and reports whether there was one. */
    method RemoveShare(name: string) returns (removed: bool)
      modifies this
      ensures removed <==> HasName(old(shares), name)
      ensures shares == Remove(old(shares), name)
      ensures old(Valid()) ==> Valid() && !HasName(shares, name)
    {
      if Unique(shares) {
        RemovePreservesUnique(shares, name);
      }
      var i := 0;
      while i < |shares|
        invariant 0 <= i <= |shares|
        invariant shares == old(shares)
        invariant forall j :: 0 <= j < i ==> shares[j].name != name
      {
        if shares[i].name == name {
          FirstIsUnique(shares, name, i, FindIndex(shares, name));
          shares := shares[..i] + shares[i + 1..];
          return true;
        }
        i := i + 1;
      }
      return false;
    }
  }
}
