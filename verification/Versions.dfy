/**
 Which mixtures of versions `collapse_address_list` refuses: the tests in the loop that splits its
 list.  The list is documented to be refused with a type error if it mixes versions.
 */
module Versions {
  import opened Wrappers

  /** An address, or a network of one address; or a wider network. */
  datatype Entry = Single(version: nat) | Wide(version: nat)

  datatype Refusal = TypeError | IndexError

  predicate Mixed(items: seq<Entry>) {
    exists i, j :: 0 <= i < j < |items| && items[i].version != items[j].version
  }

  predicate Clash(a: Entry, b: Entry) {
    a.Single? == b.Single? && a.version != b.version
  }

  /** The first entry that differs in version from one of its own kind before it. */
  predicate FirstClash(items: seq<Entry>, k: nat) {
    && k < |items|
    && (exists i :: 0 <= i < k && Clash(items[i], items[k]))
    && forall i, j :: 0 <= i < j < k ==> !Clash(items[i], items[j])
  }

  /** Some entry up to the one at `k` is a single address, so that the error text can name the last one. */
  predicate SingleBy(items: seq<Entry>, k: nat) {
    exists i :: 0 <= i <= k && i < |items| && items[i].Single?
  }

  /** What the split of a list comes to: nothing, or the error at the first entry that clashes. */
  ghost predicate Splits(items: seq<Entry>, e: Option<Refusal>) {
    && (e.None? <==> forall i, j :: 0 <= i < j < |items| ==> !Clash(items[i], items[j]))
    && forall k: nat :: FirstClash(items, k) ==> e == Some(if SingleBy(items, k) then TypeError else IndexError)
  }

  /** The entries of one kind among the first `n` all have the version collected last. */
  ghost predicate Collected(items: seq<Entry>, n: nat, single: bool, versions: seq<nat>) {
    && n <= |items|
    && forall i :: 0 <= i < n && items[i].Single? == single ==>
         |versions| > 0 && items[i].version == versions[|versions| - 1]
  }

  /** Only entries of one kind are compared; and the message for networks needs an address to name. */
  method SplitVersions(items: seq<Entry>) returns (e: Option<Refusal>)
    ensures Splits(items, e)
  {
    var ips: seq<nat>, nets: seq<nat> := [], [];
    for n := 0 to |items|
      invariant Collected(items, n, true, ips) && Collected(items, n, false, nets)
      invariant ips != [] ==> exists i :: 0 <= i < n && items[i] == Single(ips[|ips| - 1])
      invariant nets != [] ==> exists i :: 0 <= i < n && items[i] == Wide(nets[|nets| - 1])
      invariant forall i, j :: 0 <= i < j < n ==> !Clash(items[i], items[j])
    {
      match items[n] {
        case Single(version) =>
          if ips != [] && ips[|ips| - 1] != version {
            OneFirstClash(items, n);
            return Some(TypeError);
          }
          ips := ips + [version];
        case Wide(version) =>
          if nets != [] && nets[|nets| - 1] != version {
            OneFirstClash(items, n);
            return Some(if ips == [] then IndexError else TypeError);
          }
          nets := nets + [version];
      }
    }
    return None;
  }

  lemma OneFirstClash(items: seq<Entry>, n: nat)
    requires FirstClash(items, n)
    ensures forall k: nat :: FirstClash(items, k) ==> k == n
  {
  }

  lemma {:induction false} SomeFirstClash(items: seq<Entry>, n: nat) returns (k: nat)
    requires n <= |items| && exists i, j :: 0 <= i < j < n && Clash(items[i], items[j])
    ensures FirstClash(items, k)
  {
    if i, j :| 0 <= i < j < n - 1 && Clash(items[i], items[j]) {
      k := SomeFirstClash(items, n - 1);
    } else {
      k := n - 1;
    }
  }

  /**
   A type error exactly for mixed lists: that promise is kept if and only if the list is not mixed, or
   two of a kind differ and a single address comes no later than the first such difference.
   */
  lemma TypeErrorIffMixed(items: seq<Entry>, e: Option<Refusal>)
    requires Splits(items, e)
    ensures (e == Some(TypeError) <==> Mixed(items)) <==>
              !Mixed(items) || exists k: nat :: FirstClash(items, k) && SingleBy(items, k)
  {
    if e.Some? {
      var k := SomeFirstClash(items, |items|);
      OneFirstClash(items, k);
      assert Mixed(items);
    }
  }

  /** 0.0.0.0/0 and ::1 pass; 0.0.0.0/0 and ::/0 are refused with another error. */
  lemma MixedVersions()
    ensures Mixed([Wide(4), Single(6)]) && !Clash(Wide(4), Single(6))
    ensures Mixed([Wide(4), Wide(6)]) && FirstClash([Wide(4), Wide(6)], 1) && !SingleBy([Wide(4), Wide(6)], 1)
  {
    var passed, refused := [Wide(4), Single(6)], [Wide(4), Wide(6)];
    assert passed[0].version != passed[1].version && refused[0].version != refused[1].version;
    assert Clash(refused[0], refused[1]);
  }
}
