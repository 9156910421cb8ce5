/**
 A pointer paired with a generation tag, the value a queue node keeps in its
 atomic next slot. The tag is a `std::size_t`; taking the next tag wraps from the
 largest word back to zero.
 */
module TaggedPointer {
  import opened SizeT

  /** A nullable pointer: None is the null pointer, Some(x) points at x. */
  datatype Option<T> = None | Some(value: T)

  /** Generation tags are `std::size_t` words. */
  type Tag = Word

  /** `get_next_tag` on a tag t: `(t + 1) & max`, computed in unsigned words. */
  function NextTag(t: Tag): (r: Tag)
    ensures r == (t + 1) % Modulus
    ensures t < MaxWord ==> r == t + 1
    ensures t == MaxWord ==> r == 0
  {
    var sum := Add(t, 1);
    MaskWithMaxIsIdentity(sum);
    BitAnd(sum, MaxWord)
  }

  /** The tag reached from t by applying `get_next_tag` k times. */
  function Advance(t: Tag, k: nat): Tag
  {
    if k == 0 then t else NextTag(Advance(t, k - 1))
  }

  lemma ModSucc(n: nat)
    ensures (n % Modulus + 1) % Modulus == (n + 1) % Modulus
  {
  }

  lemma {:induction false} ModAddMultiple(n: nat, q: nat)
    ensures (n + q * Modulus) % Modulus == n % Modulus
  {
    if q != 0 {
      ModAddMultiple(n, q - 1);
      assert n + q * Modulus == (n + (q - 1) * Modulus) + Modulus;
    }
  }

  /** Applying `get_next_tag` k times moves a tag k steps around the cycle of 2^WordBits tags. */
  lemma {:induction false} AdvanceShifts(t: Tag, k: nat)
    ensures Advance(t, k) == (t + k) % Modulus
  {
    if k != 0 {
      AdvanceShifts(t, k - 1);
      ModSucc(t + k - 1);
    }
  }

  /**
   Applying `get_next_tag` k times to a tag gives back that same tag exactly when
   k is a multiple of 2^WordBits.
   */
  lemma TagRecursOnlyAfterFullCycle(t: Tag, k: nat)
    ensures Advance(t, k) == t <==> k % Modulus == 0
  {
    AdvanceShifts(t, k);
    ShiftReturnsOnlyAtMultiples(t, k);
  }

  /** Modular arithmetic behind the lemma above: adding k to a tag modulo 2^WordBits returns it iff 2^WordBits divides k. */
  lemma ShiftReturnsOnlyAtMultiples(t: Tag, k: nat)
    ensures (t + k) % Modulus == t <==> k % Modulus == 0
  {
    var q, j := k / Modulus, k % Modulus;
    assert k == q * Modulus + j;
    ModAddMultiple(t + j, q);
    if j == 0 {
      assert (t + k) % Modulus == t;
    } else if t + j < Modulus {
      assert (t + k) % Modulus == t + j;
    } else {
      assert (t + k) % Modulus == t + j - Modulus;
    }
  }

  /** tagged_ptr<T>: a pointer field and a tag field, updated in place by the setters. */
  class TaggedPtr<T> {
    var ptr: Option<T>
    var tag: Tag

    /** The default constructor: a null pointer with tag 0. */
    constructor ()
      ensures GetPtr() == None && GetTag() == 0
    {
      ptr := None;
      tag := 0;
    }

    /** The explicit constructor from a pointer and a tag, the tag defaulting to 0. */
    constructor Make(p: Option<T>, t: Tag := 0)
      ensures GetPtr() == p && GetTag() == t
    {
      ptr := p;
      tag := t;
    }

    /** Replaces both fields. */
    method Set(p: Option<T>, t: Tag)
      modifies this
      ensures GetPtr() == p && GetTag() == t
    {
      ptr := p;
      tag := t;
    }

    function GetTag(): (r: Tag)
      reads this
      ensures r == tag
    {
      tag
    }

    /** The successor of the stored tag, wrapping at the largest word. */
    function GetNextTag(): (r: Tag)
      reads this
      ensures r == (GetTag() + 1) % Modulus
      ensures r != GetTag()
    {
      NextTag(GetTag())
    }

    /** Replaces the tag; the pointer is unchanged. */
    method SetTag(t: Tag)
      modifies this
      ensures GetTag() == t && GetPtr() == old(GetPtr())
    {
      tag := t;
    }

    function GetPtr(): (r: Option<T>)
      reads this
      ensures r == ptr
    {
      ptr
    }

    /** Replaces the pointer; the tag is unchanged. */
    method SetPtr(p: Option<T>)
      modifies this
      ensures GetPtr() == p && GetTag() == old(GetTag())
    {
      ptr := p;
    }

    /** `operator*`: the object pointed at, for a non-null pointer only. */
    function Deref(): (r: T)
      reads this
      requires GetPtr().Some?
      ensures GetPtr() == Some(r)
    {
      ptr.value
    }

    /** `operator->`: the same pointer `GetPtr` returns. */
    function Arrow(): (r: Option<T>)
      reads this
      ensures r == GetPtr()
    {
      ptr
    }

    /** `operator bool`: whether the pointer is non-null, whatever the tag. */
    function IsNonNull(): (r: bool)
      reads this
      ensures r <==> GetPtr() != None
    {
      ptr.Some?
    }
  }

  /**
   A client of the contracts above: the next slot of a freshly built queue node
   starts as a default tagged pointer and is replaced by a null pointer carrying
   the next tag.
   */
  method ClientScenario(x: int)
  {
    var oldNext := new TaggedPtr<int>();
    var newNext := new TaggedPtr<int>.Make(None, oldNext.GetNextTag());
    assert newNext.GetTag() == 1 && !newNext.IsNonNull();
    newNext.SetPtr(Some(x));
    assert newNext.IsNonNull() && newNext.Deref() == x && newNext.GetTag() == 1;
    newNext.SetTag(newNext.GetNextTag());
    assert newNext.Arrow() == Some(x) && newNext.GetTag() == 2;
    newNext.Set(None, MaxWord);
    assert newNext.GetNextTag() == 0 && !oldNext.IsNonNull();
  }
}
