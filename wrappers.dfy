/** Option and Result wrappers, and the Python exceptions the modelled code raises. */
module Wrappers {

  datatype Option<+T> = None | Some(value: T) {
    function GetOr(default: T): T {
      match this
      case Some(v) => v
      case None => default
    }
  }

  /** The exceptions the crossword core can raise; each one aborts the call that raised it. */
  datatype Error =
    | ValueError          // int() of a non-number, a clue number missing from the grid, an unknown prompt class
    | KeyError            // a missing dictionary key
    | IndexError          // a list index past the end
    | ZeroDivisionError   // a normalised reward over zero clues or zero cells

  datatype Result<+T> = Ok(value: T) | Err(error: Error)

  /** `xs` followed by the successful result `r`, or the error of `r`. */
  function Prepend<T>(xs: seq<T>, r: Result<seq<T>>): Result<seq<T>> {
    match r
    case Ok(rest) => Ok(xs + rest)
    case Err(e) => Err(e)
  }

  /**
   * Applies `f` to each element in order and collects the results; the
   * first element whose result is an error aborts with that error, as a
   * Python loop does when its body raises.
   */
  function MapAll<A, B>(f: A -> Result<B>, xs: seq<A>): Result<seq<B>> {
    if xs == [] then Ok([])
    else match f(xs[0])
      case Err(e) => Err(e)
      case Ok(y) => Prepend([y], MapAll(f, xs[1..]))
  }

  /**
   * `MapAll` succeeds exactly when `f` succeeds on every element, with the
   * results in order; otherwise it fails with the error of the first
   * element on which `f` fails.
   */
  lemma {:induction false} MapAllMeaning<A, B>(f: A -> Result<B>, xs: seq<A>)
    ensures MapAll(f, xs).Ok? <==> forall j :: 0 <= j < |xs| ==> f(xs[j]).Ok?
    ensures MapAll(f, xs).Ok? ==>
      |MapAll(f, xs).value| == |xs| && forall j :: 0 <= j < |xs| ==> MapAll(f, xs).value[j] == f(xs[j]).value
    ensures MapAll(f, xs).Err? ==>
      exists j :: 0 <= j < |xs| && f(xs[j]) == Err(MapAll(f, xs).error) && forall k :: 0 <= k < j ==> f(xs[k]).Ok?
  {
    if xs != [] && f(xs[0]).Ok? {
      MapAllMeaning(f, xs[1..]);
      assert forall j :: 1 <= j < |xs| ==> xs[j] == xs[1..][j - 1];
      var rest := MapAll(f, xs[1..]);
      if rest.Err? {
        var j :| 0 <= j < |xs| - 1 && f(xs[1..][j]) == Err(rest.error) && forall k :: 0 <= k < j ==> f(xs[1..][k]).Ok?;
        assert f(xs[j + 1]) == Err(rest.error);
      }
    }
  }

  /** One step of a loop that follows `MapAll`: having collected `done`, handle element `i`. */
  lemma MapAllStep<A, B>(f: A -> Result<B>, xs: seq<A>, i: nat, done: seq<B>)
    requires i < |xs|
    ensures Prepend(done, MapAll(f, xs[i..])) ==
      match f(xs[i])
      case Err(e) => Err(e)
      case Ok(y) => Prepend(done + [y], MapAll(f, xs[i + 1..]))
  {
    assert xs[i..][0] == xs[i] && xs[i..][1..] == xs[i + 1..];
    var rest := MapAll(f, xs[i + 1..]);
    if f(xs[i]).Ok? && rest.Ok? {
      assert done + ([f(xs[i]).value] + rest.value) == (done + [f(xs[i]).value]) + rest.value;
    }
  }

  /** Before the loop nothing is collected; after it nothing is left. */
  lemma MapAllBounds<A, B>(f: A -> Result<B>, xs: seq<A>, done: seq<B>)
    ensures Prepend([], MapAll(f, xs)) == MapAll(f, xs)
    ensures Prepend(done, MapAll(f, xs[|xs|..])) == Ok(done)
  {
    assert xs[|xs|..] == [];
    PrependUnit(done, MapAll(f, xs));
  }

  lemma PrependAssoc<T>(a: seq<T>, b: seq<T>, r: Result<seq<T>>)
    ensures Prepend(a, Prepend(b, r)) == Prepend(a + b, r)
  {
    if r.Ok? {
      assert a + (b + r.value) == (a + b) + r.value;
    }
  }

  lemma PrependUnit<T>(a: seq<T>, r: Result<seq<T>>)
    ensures Prepend([], r) == r
    ensures Prepend(a, Ok([])) == Ok(a)
  {
    assert a + [] == a;
    if r.Ok? {
      assert [] + r.value == r.value;
    }
  }

  /** The concatenation of `f(x)` over `xs`, in order; the first element whose `f` fails aborts. */
  function FlatMapAll<A, B>(f: A -> Result<seq<B>>, xs: seq<A>): Result<seq<B>> {
    if xs == [] then Ok([])
    else match f(xs[0])
      case Err(e) => Err(e)
      case Ok(ys) => Prepend(ys, FlatMapAll(f, xs[1..]))
  }

  /**
   * The concatenation succeeds exactly when `f` succeeds on every element,
   * and then every item comes from the result of `f` on some element.
   */
  lemma {:induction false} FlatMapAllMeaning<A, B>(f: A -> Result<seq<B>>, xs: seq<A>)
    ensures FlatMapAll(f, xs).Ok? <==> forall j :: 0 <= j < |xs| ==> f(xs[j]).Ok?
    ensures FlatMapAll(f, xs).Ok? ==>
      forall y :: y in FlatMapAll(f, xs).value ==> exists j :: 0 <= j < |xs| && y in f(xs[j]).value
  {
    if xs != [] && f(xs[0]).Ok? {
      FlatMapAllMeaning(f, xs[1..]);
      assert forall j :: 1 <= j < |xs| ==> xs[j] == xs[1..][j - 1];
      var rest := FlatMapAll(f, xs[1..]);
      if rest.Ok? {
        forall y | y in FlatMapAll(f, xs).value
          ensures exists j :: 0 <= j < |xs| && y in f(xs[j]).value
        {
          if y !in f(xs[0]).value {
            var j :| 0 <= j < |xs[1..]| && y in f(xs[1..][j]).value;
            assert y in f(xs[j + 1]).value;
          }
        }
      }
    }
  }

  /** One step of a loop that follows `FlatMapAll`: having collected `done`, handle element `i`. */
  lemma FlatMapAllStep<A, B>(f: A -> Result<seq<B>>, xs: seq<A>, i: nat, done: seq<B>)
    requires i < |xs|
    ensures Prepend(done, FlatMapAll(f, xs[i..])) ==
      match f(xs[i])
      case Err(e) => Err(e)
      case Ok(ys) => Prepend(done + ys, FlatMapAll(f, xs[i + 1..]))
  {
    assert xs[i..][0] == xs[i] && xs[i..][1..] == xs[i + 1..];
    if f(xs[i]).Ok? {
      PrependAssoc(done, f(xs[i]).value, FlatMapAll(f, xs[i + 1..]));
    }
  }

  lemma FlatMapAllBounds<A, B>(f: A -> Result<seq<B>>, xs: seq<A>, done: seq<B>)
    ensures Prepend([], FlatMapAll(f, xs)) == FlatMapAll(f, xs)
    ensures Prepend(done, FlatMapAll(f, xs[|xs|..])) == Ok(done)
  {
    assert xs[|xs|..] == [];
    PrependUnit(done, FlatMapAll(f, xs));
  }

  lemma ConcatAssoc<T>(a: seq<T>, b: seq<T>, c: seq<T>)
    ensures (a + b) + c == a + (b + c)
  {
  }

  lemma ConcatNil<T>(a: seq<T>)
    ensures a + [] == a && [] + a == a
  {
  }

  lemma TakeStep<T>(s: seq<T>, k: nat)
    requires k < |s|
    ensures s[..k + 1] == s[..k] + [s[k]]
  {
  }

  lemma DropStep<T>(s: seq<T>, i: nat)
    requires i < |s|
    ensures s[i..][0] == s[i] && s[i..][1..] == s[i + 1..]
  {
  }

  lemma DropEnds<T>(s: seq<T>)
    ensures s[0..] == s && s[|s|..] == []
  {
  }

  lemma NoMembers<T>(s: seq<T>)
    ensures s == [] <==> forall x :: x !in s
  {
    if s != [] {
      assert s[0] in s;
    }
  }
}
