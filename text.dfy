/** String operations the resizer applies to the operator's path and to file
    names: removing double quotes (String.prototype.replace with /"/g),
    lower-casing (toLowerCase, ASCII letters only) and substring search
    (String.prototype.includes). */
module Text {

  const Quote: char := '"'

  /** `s` keeps the elements of `sub`, in order, possibly with others between. */
  predicate IsSubsequence<T(==)>(sub: seq<T>, s: seq<T>)
    decreases |s|
  {
    if sub == [] then true
    else if s == [] then false
    else if sub[0] == s[0] then IsSubsequence(sub[1..], s[1..])
    else IsSubsequence(sub, s[1..])
  }

  /** `s.replace(/"/g, "")`: the string with every double quote removed.
      No quote survives, and every other character is kept as often as it occurs. */
  function StripQuotes(s: string): (r: string)
    ensures Quote !in r
    ensures |r| <= |s|
    ensures forall c :: c != Quote ==> multiset(r)[c] == multiset(s)[c]
  {
    if s == [] then []
    else
      assert s == [s[0]] + s[1..];
      if s[0] == Quote then StripQuotes(s[1..])
      else [s[0]] + StripQuotes(s[1..])
  }

  /** The characters that survive keep their original order. */
  lemma {:induction false} StripQuotesKeepsOrder(s: string)
    ensures IsSubsequence(StripQuotes(s), s)
  {
    if s != [] {
      StripQuotesKeepsOrder(s[1..]);
      if s[0] == Quote {
        SubsequenceOfTail(StripQuotes(s[1..]), s);
      }
    }
  }

  /** Dropping the head of `s` keeps a subsequence of the tail a subsequence of `s`. */
  lemma {:induction false} SubsequenceOfTail<T>(sub: seq<T>, s: seq<T>)
    requires s != [] && IsSubsequence(sub, s[1..])
    ensures IsSubsequence(sub, s)
    decreases |sub| + |s|
  {
    if sub != [] && sub[0] == s[0] {
      // IsSubsequence(sub, s) needs IsSubsequence(sub[1..], s[1..]).
      SubsequenceDropHead(sub, s[1..]);
    }
  }

  /** A subsequence stays a subsequence when its own head is dropped. */
  lemma {:induction false} SubsequenceDropHead<T>(sub: seq<T>, s: seq<T>)
    requires sub != [] && IsSubsequence(sub, s)
    ensures IsSubsequence(sub[1..], s)
    decreases |sub| + |s|
  {
    assert s != [];
    if sub[0] == s[0] {
      if sub[1..] != [] {
        SubsequenceOfTail(sub[1..], s);
      }
    } else {
      SubsequenceDropHead(sub, s[1..]);
      if sub[1..] != [] {
        SubsequenceOfTail(sub[1..], s);
      }
    }
  }

  /** A string without quotes is left as it is. */
  lemma {:induction false} StripQuotesNoQuote(s: string)
    requires Quote !in s
    ensures StripQuotes(s) == s
  {
    if s != [] {
      assert Quote !in s[1..] by {
        assert forall k :: 0 <= k < |s[1..]| ==> s[1..][k] == s[k + 1];
      }
      StripQuotesNoQuote(s[1..]);
    }
  }

  /** Stripping twice gives what stripping once gives. */
  lemma StripQuotesIdempotent(s: string)
    ensures StripQuotes(StripQuotes(s)) == StripQuotes(s)
  {
    StripQuotesNoQuote(StripQuotes(s));
  }

  /** toLowerCase on one character, for the ASCII letters. */
  function LowerChar(c: char): char
  {
    if 'A' <= c <= 'Z' then (c as int - 'A' as int + 'a' as int) as char else c
  }

  /** toLowerCase on a string, character by character. */
  function Lower(s: string): string
  {
    seq(|s|, i requires 0 <= i < |s| => LowerChar(s[i]))
  }

  /** Lower-casing works piecewise. */
  lemma LowerConcat(a: string, b: string)
    ensures Lower(a + b) == Lower(a) + Lower(b)
  {
  }

  /** `sub` occurs in `s` starting at index `i`. */
  predicate OccursAt(s: string, sub: string, i: int)
  {
    0 <= i && i + |sub| <= |s| && s[i..i + |sub|] == sub
  }

  /** `s.includes(sub)`, by trying every starting position from the left. */
  function Contains(s: string, sub: string): bool
    decreases |s|
  {
    if |sub| > |s| then false
    else if s[..|sub|] == sub then true
    else Contains(s[1..], sub)
  }

  /** `Contains` holds exactly when `sub` occurs at some position of `s`. */
  lemma {:induction false} ContainsIff(s: string, sub: string)
    ensures Contains(s, sub) <==> exists i :: OccursAt(s, sub, i)
    decreases |s|
  {
    if |sub| > |s| {
    } else if s[..|sub|] == sub {
      assert OccursAt(s, sub, 0);
    } else {
      ContainsIff(s[1..], sub);
      if Contains(s[1..], sub) {
        var i :| OccursAt(s[1..], sub, i);
        assert s[i + 1..i + 1 + |sub|] == s[1..][i..i + |sub|];
        assert OccursAt(s, sub, i + 1);
      } else {
        forall i | OccursAt(s, sub, i)
          ensures false
        {
          assert i != 0;
          assert s[1..][i - 1..i - 1 + |sub|] == s[i..i + |sub|];
          assert OccursAt(s[1..], sub, i - 1);
        }
      }
    }
  }

  /** A string contains whatever is written anywhere inside it. */
  lemma ContainsInfix(p: string, w: string, q: string)
    ensures Contains(p + w + q, w)
  {
    var s := p + w + q;
    assert s[|p|..|p| + |w|] == w;
    assert OccursAt(s, w, |p|);
    ContainsIff(s, w);
  }
}
