// The cursor iterator shared by samplr/git-go: sliceRefIter
// (reference.go), sliceFileIter (file.go), sliceCommitIter (commit.go) and
// sliceRemoteIter (remote.go) are the same structure over different element
// types, so they are modelled once, generically.
module GitIter {
  import opened Wrappers

  /** io.EOF, git.ErrStop, or any other error a callback returns. */
  datatype IterError = EOF | Stop | Failed(msg: string)

  /** Index of the first element on which fn returns an error, or |s| if none. */
  function FirstFailure<T>(s: seq<T>, fn: T -> Option<IterError>): (k: nat)
    ensures k <= |s|
    ensures forall i :: 0 <= i < k ==> fn(s[i]).None?
    ensures k < |s| ==> fn(s[k]).Some?
  {
    if s == [] then 0
    else if fn(s[0]).Some? then 0
    else 1 + FirstFailure(s[1..], fn)
  }

  /**
   * What ForEach returns over s: nothing if every call succeeds or the
   * first failing call returned Stop, otherwise that call's error.
   */
  function ForEachResult<T>(s: seq<T>, fn: T -> Option<IterError>): (r: Option<IterError>)
    ensures r != Some(Stop)
    ensures r.None? <==>
      ((forall i :: 0 <= i < |s| ==> fn(s[i]).None?)
       || exists i :: 0 <= i < |s| && fn(s[i]) == Some(Stop) && forall j :: 0 <= j < i ==> fn(s[j]).None?)
    ensures r.Some? ==> exists i :: 0 <= i < |s| && fn(s[i]) == r && forall j :: 0 <= j < i ==> fn(s[j]).None?
  {
    var k := FirstFailure(s, fn);
    if k == |s| || fn(s[k]) == Some(Stop) then None else fn(s[k])
  }

  /** The elements ForEach hands to fn: all of them up to and including the first failure. */
  function Visited<T>(s: seq<T>, fn: T -> Option<IterError>): (v: seq<T>)
    ensures |v| <= |s| && v == s[..|v|]
    ensures |v| < |s| ==> |v| > 0 && fn(s[|v| - 1]).Some?
  {
    var k := FirstFailure(s, fn);
    if k == |s| then s else s[..k + 1]
  }

  class SliceIter<T> {
    var pos: nat
    var series: seq<T>

    constructor (series: seq<T>)
      ensures this.pos == 0 && this.series == series
    {
      this.pos := 0;
      this.series := series;
    }

    /** The elements a run of Next calls will still return. */
    function Remaining(): seq<T>
      reads this
    {
      if pos >= |series| then [] else series[pos..]
    }

    /** Next: the element at pos and one step forward, or EOF at the end. */
    method Next() returns (item: Option<T>, err: Option<IterError>)
      modifies this
      ensures series == old(series)
      ensures old(pos) >= |series| ==> item.None? && err == Some(EOF) && pos == old(pos)
      ensures old(pos) < |series| ==> item == Some(series[old(pos)]) && err.None? && pos == old(pos) + 1
      ensures item.Some? ==> old(Remaining()) == [item.value] + Remaining()
    {
      if pos >= |series| {
        return None, Some(EOF);
      }
      item := Some(series[pos]);
      pos := pos + 1;
      err := None;
    }

    /** Close: jump to the end, so every later Next returns EOF. */
    method Close()
      modifies this
      ensures series == old(series) && pos == |series| && Remaining() == []
    {
      pos := |series|;
    }

    /**
     * ForEach: call fn on the whole series from index 0, whatever pos is,
     * stop at the first error and return it, except that Stop ends the walk
     * without an error. The iterator is closed afterwards in every case.
     */
    method ForEach(fn: T -> Option<IterError>) returns (err: Option<IterError>, ghost visited: seq<T>)
      modifies this
      ensures series == old(series) && pos == |series|
      ensures visited == Visited(series, fn)
      ensures err == ForEachResult(series, fn)
    {
      var i := 0;
      visited := [];
      err := None;
      while i < |series|
        invariant 0 <= i <= |series|
        invariant visited == series[..i]
        invariant forall j :: 0 <= j < i ==> fn(series[j]).None?
      {
        var e := fn(series[i]);
        visited := visited + [series[i]];
        if e.Some? {
          assert FirstFailure(series, fn) == i by { FirstFailureAt(series, fn, i); }
          Close();
          if e == Some(Stop) {
            return None, visited;
          }
          return e, visited;
        }
        i := i + 1;
      }
      assert FirstFailure(series, fn) == |series| by { FirstFailureAt(series, fn, |series|); }
      Close();
    }
  }

  /** FirstFailure is the index of the first failing call and no other. */
  lemma {:induction false} FirstFailureAt<T>(s: seq<T>, fn: T -> Option<IterError>, i: nat)
    requires i <= |s|
    requires forall j :: 0 <= j < i ==> fn(s[j]).None?
    requires i < |s| ==> fn(s[i]).Some?
    ensures FirstFailure(s, fn) == i
  {
    if i > 0 {
      assert fn(s[0]).None?;
      FirstFailureAt(s[1..], fn, i - 1);
    }
  }
}
