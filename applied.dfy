/** `AppliedValue` of `src/applied.rs`: a two-register setting. Widgets edit
    `temp`; everything else (reads, equality, hence the cache check) sees
    `applied`, which catches up only on `commit`. */
module Applied {
  import opened Wrappers

  datatype AppliedValue<T> = AppliedValue(applied: T, temp: T)
  {
    /** `deref`: what a reader sees. */
    function Get(): T
    {
      applied
    }

    /** A write through `deref_mut`: lands in `temp` only. */
    function Set(v: T): (r: AppliedValue<T>)
      ensures r.Get() == Get() && r.temp == v
    {
      this.(temp := v)
    }

    /** `commit`: publish the edited value. */
    function Commit(): (r: AppliedValue<T>)
      ensures r.Get() == temp && r.temp == temp
    {
      AppliedValue(temp, temp)
    }
  }

  /** `new`: both registers hold the value. */
  function New<T>(v: T): (r: AppliedValue<T>)
    ensures r.Get() == v && r.temp == v
  {
    AppliedValue(v, v)
  }

  /** `PartialEq`: only the published registers are compared. */
  predicate Eq<T(==)>(a: AppliedValue<T>, b: AppliedValue<T>)
  {
    a.applied == b.applied
  }

  /** `view`: the widget leaves `edited` in `temp`; the value is committed
      iff the widget reported a released drag or lost focus. */
  function View<T>(a: AppliedValue<T>, edited: T, dragReleased: bool, lostFocus: bool): (r: AppliedValue<T>)
    ensures r.temp == edited
    ensures r.Get() == (if dragReleased || lostFocus then edited else a.Get())
  {
    var written := a.Set(edited);
    if dragReleased || lostFocus then written.Commit() else written
  }

  /** What a drag widget reports in one frame: the value it was dragged or
      typed to, if it was touched, and whether a drag was released or the
      focus lost. */
  datatype Response<T> = Response(edited: Option<T>, dragReleased: bool, lostFocus: bool)

  /** `view` around a widget that starts from `temp`: an untouched widget
      writes `temp` back. */
  function ViewWidget<T>(a: AppliedValue<T>, w: Response<T>): (r: AppliedValue<T>)
    ensures w.edited.Some? ==> r.temp == w.edited.value
    ensures w.edited.None? ==> r.temp == a.temp
    ensures !w.dragReleased && !w.lostFocus ==> Eq(r, a)
    ensures w.dragReleased || w.lostFocus ==> r.Get() == r.temp
  {
    View(a, if w.edited.Some? then w.edited.value else a.temp, w.dragReleased, w.lostFocus)
  }

  /** A write is invisible to readers and to equality until committed; after
      the commit it is what readers see. */
  lemma WriteThenCommit<T>(a: AppliedValue<T>, v: T)
    ensures a.Set(v).Get() == a.Get()
    ensures Eq(a.Set(v), a)
    ensures a.Set(v).Commit().Get() == v
  {
  }

  /** Committing twice is committing once. */
  lemma CommitIdempotent<T>(a: AppliedValue<T>)
    ensures a.Commit().Commit() == a.Commit()
  {
  }

  /** Equality ignores `temp` and is an equivalence. */
  lemma EqIgnoresTemp<T>(a: AppliedValue<T>, b: AppliedValue<T>, c: AppliedValue<T>)
    ensures Eq(a, b) <==> a.Get() == b.Get()
    ensures Eq(a, a)
    ensures Eq(a, b) ==> Eq(b, a)
    ensures Eq(a, b) && Eq(b, c) ==> Eq(a, c)
  {
  }

  /** A fresh value is already committed. */
  lemma NewCommitted<T>(v: T)
    ensures New(v).Commit() == New(v)
  {
  }

  /** A mutable cell holding one `AppliedValue`: the in-place form of the
      operations above, for an owner that edits a setting across frames. */
  class AppliedCell<T> {
    var value: AppliedValue<T>

    constructor (v: T)
      ensures value == New(v)
    {
      value := New(v);
    }

    /** `*cell = v` through `deref_mut`. */
    method Write(v: T)
      modifies this
      ensures value == old(value).Set(v)
      ensures value.Get() == old(value.Get())
    {
      value := value.(temp := v);
    }

    method Commit()
      modifies this
      ensures value == old(value).Commit()
      ensures value.Get() == old(value.temp)
    {
      value := AppliedValue(value.temp, value.temp);
    }

    method ViewFrame(edited: T, dragReleased: bool, lostFocus: bool)
      modifies this
      ensures value == View(old(value), edited, dragReleased, lostFocus)
    {
      Write(edited);
      if dragReleased || lostFocus {
        Commit();
      }
    }
  }
}
