// drghs-worker/pkg/tokens/rotate_tokens.go: a vendor handing out GitHub
// tokens in turn. The mutex is left out: calls are taken one at a time.
module Tokens {
  import opened Wrappers

  const NoTokens := "no tokens"

  class RotatingTokens {
    const keys: seq<string>
    var lastAccessed: int
    /** How many tokens have been handed out, for stating the rotation. */
    ghost var calls: nat

    ghost predicate Valid()
      reads this
    {
      0 <= lastAccessed <= |keys| && (|keys| > 0 ==> lastAccessed % |keys| == calls % |keys|)
    }

    /** NewRotatingVendor: a nil list is an empty one; the first call hands out the first key. */
    constructor (tokens: Option<seq<string>>)
      ensures keys == (if tokens.Some? then tokens.value else [])
      ensures lastAccessed == 0 && calls == 0 && Valid()
    {
      keys := if tokens.Some? then tokens.value else [];
      lastAccessed := 0;
      calls := 0;
    }

    /**
     * GetToken: the error "no tokens" when there are none; otherwise the
     * key after the one handed out last, starting over after the last key,
     * so the k-th call hands out keys[k mod n].
     */
    method GetToken() returns (token: string, err: Option<string>)
      requires Valid()
      modifies this
      ensures Valid()
      ensures |keys| == 0 ==> token == "" && err == Some(NoTokens) && calls == old(calls)
      ensures |keys| > 0 ==> err.None? && token == keys[old(calls) % |keys|] && calls == old(calls) + 1
    {
      if lastAccessed >= |keys| {
        lastAccessed := 0;
      }
      if |keys| == 0 {
        return "", Some(NoTokens);
      }
      RotateStep(old(lastAccessed), calls, |keys|);
      token := keys[lastAccessed];
      lastAccessed := lastAccessed + 1;
      calls := calls + 1;
      return token, None;
    }
  }

  /** The tokens handed out by count calls, starting with the call numbered start. */
  function Handed(keys: seq<string>, start: nat, count: nat): (r: seq<string>)
    requires |keys| > 0
    ensures |r| == count && forall i | 0 <= i < count :: r[i] == keys[(start + i) % |keys|]
  {
    seq(count, i requires 0 <= i < count => keys[(start + i) % |keys|])
  }

  /** n calls in a row, from any point, hand out every one of the n keys once. */
  lemma FullRoundHandsOutEveryKey(keys: seq<string>, start: nat)
    requires |keys| > 0
    ensures multiset(Handed(keys, start, |keys|)) == multiset(keys)
  {
    var n, s := |keys|, start % |keys|;
    var rot := keys[s..] + keys[..s];
    forall i | 0 <= i < n
      ensures Handed(keys, start, n)[i] == rot[i]
    {
      assert start == (start / n) * n + s;
      if i < n - s {
        ModUnique(start + i, n, start / n, s + i);
      } else {
        ModUnique(start + i, n, start / n + 1, i - (n - s));
      }
    }
    assert Handed(keys, start, n) == rot;
    assert keys == keys[..s] + keys[s..];
  }

  /** The rotation step: the position wrapped to the start is the call count mod n, and the next position follows it. */
  lemma RotateStep(last: int, c: nat, n: nat)
    requires n > 0 && 0 <= last <= n && last % n == c % n
    ensures var at := if last >= n then 0 else last;
      at == c % n && (at + 1) % n == (c + 1) % n
  {
    if last == n {
      ModUnique(n, n, 1, 0);
    } else {
      ModUnique(last, n, 0, last);
    }
    var at := if last >= n then 0 else last;
    ModNext(at, n);
    ModNext(c, n);
  }

  lemma ModNext(c: nat, n: nat)
    requires n > 0
    ensures (c + 1) % n == if c % n + 1 == n then 0 else c % n + 1
  {
    var q, r := c / n, c % n;
    assert c == q * n + r;
    if r + 1 < n {
      ModUnique(c + 1, n, q, r + 1);
    } else {
      assert c + 1 == (q + 1) * n;
      ModUnique(c + 1, n, q + 1, 0);
    }
  }

  /** A remainder is the r of any a == q * n + r with r in range. */
  lemma ModUnique(a: int, n: int, q: int, r: int)
    requires n > 0 && 0 <= r < n && a == q * n + r
    ensures a % n == r
  {
    var d, m := a / n, a % n;
    assert a == d * n + m;
    assert (q - d) * n == m - r;
    if q - d >= 1 {
      MulAtLeast(q - d, n);
    } else if q - d <= -1 {
      MulAtLeast(d - q, n);
    }
  }

  lemma MulAtLeast(x: int, n: int)
    requires x >= 1 && n > 0
    ensures x * n >= n
  {
  }
}
