/** Tokenize: split a string at every occurrence of a separator character,
    dropping empty pieces. The specification is the recursive function
    Tokens; the method keeps the iterator loop with its start marker, where
    the index |s| plays the part of end(). */
module StringUtil {

  /** Length of the longest prefix of s without the separator. */
  function RunLength(s: string, c: char): (k: nat)
    ensures k <= |s|
    ensures forall i :: 0 <= i < k ==> s[i] != c
    ensures k < |s| ==> s[k] == c
  {
    if s == [] || s[0] == c then 0 else 1 + RunLength(s[1..], c)
  }

  /** The tokens of s: the maximal runs of characters other than c, in order.
      None is empty and none holds the separator. */
  function Tokens(s: string, c: char): (r: seq<string>)
    ensures forall i :: 0 <= i < |r| ==> r[i] != [] && c !in r[i]
    decreases |s|
  {
    if s == [] then []
    else if s[0] == c then Tokens(s[1..], c)
    else
      var k := RunLength(s, c);
      [s[..k]] + Tokens(s[k..], c)
  }

  /** The tokens joined back together with one separator between neighbours. */
  function Join(ts: seq<string>, c: char): string
  {
    if ts == [] then []
    else ts[0] + (if |ts| == 1 then [] else [c] + Join(ts[1..], c))
  }

  /** s read character by character with leading and trailing separators
      removed and every run of separators collapsed to one. */
  function Squeeze(s: string, c: char): string
  {
    if s == [] then []
    else if s[0] == c then Squeeze(s[1..], c)
    else
      var rest := Squeeze(s[1..], c);
      if |s| > 1 && s[1] == c && rest != [] then [s[0], c] + rest else [s[0]] + rest
  }

  /** A separator in front of a non-empty string. */
  function Sep(r: string, c: char): string
  {
    if r == [] then [] else [c] + r
  }

  /** Squeezing a string that starts with a full run keeps the run and puts
      one separator before whatever the remainder squeezes to. */
  lemma {:induction false} SqueezeRun(s: string, c: char, k: nat)
    requires 0 < k <= |s|
    requires forall i :: 0 <= i < k ==> s[i] != c
    requires k == |s| || s[k] == c
    ensures Squeeze(s, c) == s[..k] + Sep(Squeeze(s[k..], c), c)
    decreases k
  {
    var rest := Squeeze(s[1..], c);
    if k == 1 {
      assert s[..1] == [s[0]];
      if |s| == 1 {
        assert s[1..] == [];
        assert Squeeze(s, c) == [s[0]];
      } else {
        assert s[1] == c;
        if rest != [] {
          assert Squeeze(s, c) == [s[0], c] + rest == [s[0]] + ([c] + rest);
        } else {
          assert Squeeze(s, c) == [s[0]];
        }
      }
    } else {
      assert s[1] != c;
      assert Squeeze(s, c) == [s[0]] + rest;
      assert s[1..][k - 1..] == s[k..];
      SqueezeRun(s[1..], c, k - 1);
      assert s[..k] == [s[0]] + s[1..][..k - 1];
    }
  }

  /** Joining the tokens with the separator gives back the string with its
      separators squeezed; together with the contract of Tokens this pins
      the tokens down completely. */
  lemma {:induction false} JoinTokens(s: string, c: char)
    ensures Join(Tokens(s, c), c) == Squeeze(s, c)
    decreases |s|
  {
    if s == [] {
    } else if s[0] == c {
      JoinTokens(s[1..], c);
    } else {
      var k := RunLength(s, c);
      var ts := Tokens(s[k..], c);
      JoinTokens(s[k..], c);
      SqueezeRun(s, c, k);
      assert Tokens(s, c) == [s[..k]] + ts;
      assert ([s[..k]] + ts)[1..] == ts;
      if ts != [] {
        assert ts[0] != [];
        assert Join(ts, c) != [];
      }
    }
  }

  /** A string with no separator in it is one token, unless it is empty. */
  lemma NoSeparatorOneToken(s: string, c: char)
    requires c !in s
    ensures Tokens(s, c) == if s == [] then [] else [s]
  {
    if s != [] {
      var k := RunLength(s, c);
      assert forall i :: 0 <= i < |s| ==> s[i] != c;
      assert k == |s|;
      assert s[..k] == s;
      assert s[k..] == [];
      assert Tokens(s, c) == [s[..k]] + Tokens(s[k..], c);
    }
  }

  /** There are no tokens exactly when every character is the separator. */
  lemma {:induction false} NoTokens(s: string, c: char)
    ensures Tokens(s, c) == [] <==> forall i :: 0 <= i < |s| ==> s[i] == c
    decreases |s|
  {
    if s != [] && s[0] == c {
      NoTokens(s[1..], c);
      assert forall i :: 1 <= i < |s| ==> s[i] == s[1..][i - 1];
    }
  }

  /** Tokens of s starting with a run of length k, followed by a separator
      or the end. */
  lemma RunThenRest(s: string, c: char, k: nat)
    requires 0 < k <= |s|
    requires forall i :: 0 <= i < k ==> s[i] != c
    requires k == |s| || s[k] == c
    ensures Tokens(s, c) == [s[..k]] + Tokens(s[k..], c)
  {
  }

  /** Number of characters of s other than the separator. */
  function CountOther(s: string, c: char): nat
  {
    if s == [] then 0 else (if s[0] == c then 0 else 1) + CountOther(s[1..], c)
  }

  /** Total length of a list of tokens. */
  function TotalLength(ts: seq<string>): nat
  {
    if ts == [] then 0 else |ts[0]| + TotalLength(ts[1..])
  }

  /** A prefix of k characters, none the separator, counts k. */
  lemma {:induction false} CountOtherRun(s: string, c: char, k: nat)
    requires k <= |s|
    requires forall i :: 0 <= i < k ==> s[i] != c
    ensures CountOther(s, c) == k + CountOther(s[k..], c)
    decreases k
  {
    if k == 0 {
      assert s[0..] == s;
    } else {
      CountOtherRun(s[1..], c, k - 1);
      assert s[1..][k - 1..] == s[k..];
    }
  }

  /** The token lengths add up to the number of non-separator characters:
      every such character lands in exactly one token. */
  lemma {:induction false} TokenLengths(s: string, c: char)
    ensures TotalLength(Tokens(s, c)) == CountOther(s, c)
    decreases |s|
  {
    if s == [] {
    } else if s[0] == c {
      TokenLengths(s[1..], c);
    } else {
      var k := RunLength(s, c);
      var ts := Tokens(s[k..], c);
      TokenLengths(s[k..], c);
      CountOtherRun(s, c, k);
      assert Tokens(s, c) == [s[..k]] + ts;
      assert ([s[..k]] + ts)[1..] == ts;
    }
  }

  /** Tokenize. */
  method Tokenize(s: string, c: char) returns (v: seq<string>)
    ensures v == Tokens(s, c)
  {
    var end := |s|;
    var start := end;
    v := [];
    var it := 0;
    while it != end
      invariant 0 <= it <= end && 0 <= start <= end
      invariant start == end ==> v + Tokens(s[it..], c) == Tokens(s, c)
      invariant start != end ==> start < it
      invariant start != end ==> forall i :: start <= i < it ==> s[i] != c
      invariant start != end ==> v + Tokens(s[start..], c) == Tokens(s, c)
    {
      if s[it] != c {
        if start == end {
          start := it;
          assert s[it..][0] != c;
        }
        it := it + 1;
        continue;
      }
      if start != end {
        RunThenRest(s[start..], c, it - start);
        assert s[start..][..it - start] == s[start..it];
        assert s[start..][it - start..] == s[it..];
        v := v + [s[start..it]];
        start := end;
      }
      assert s[it..][1..] == s[it + 1..];
      it := it + 1;
    }
    if start != end {
      assert s[start..] == s[start..end];
      RunThenRest(s[start..], c, end - start);
      assert s[start..][end - start..] == [];
      assert s[start..][..end - start] == s[start..end];
      assert Tokens([], c) == [];
      assert Tokens(s[start..], c) == [s[start..end]];
      v := v + [s[start..end]];
    } else {
      assert s[it..] == [];
    }
  }

}
