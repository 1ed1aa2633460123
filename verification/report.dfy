/** A report built by appending, for each selected key, the text a table
    assigns to it; and the reading of such a report back into the keys.
    The validator's message is a report over its five checks. */
module Report {
  import opened Optional

  /** The texts of `ks`, one after the other. */
  function Concat<K>(t: K -> string, ks: seq<K>): string {
    if |ks| == 0 then "" else t(ks[0]) + Concat(t, ks[1..])
  }

  lemma ConcatCons<K>(t: K -> string, k: K, ks: seq<K>)
    ensures Concat(t, [k] + ks) == t(k) + Concat(t, ks)
  {
    assert ([k] + ks)[1..] == ks;
  }

  lemma {:induction false} ConcatAppend<K>(t: K -> string, a: seq<K>, b: seq<K>)
    ensures Concat(t, a + b) == Concat(t, a) + Concat(t, b)
  {
    if |a| > 0 {
      assert (a + b)[1..] == a[1..] + b;
      ConcatAppend(t, a[1..], b);
      assert t(a[0]) + Concat(t, a[1..]) + Concat(t, b) == t(a[0]) + (Concat(t, a[1..]) + Concat(t, b));
    } else {
      assert a + b == b;
    }
  }

  /** `sub` lists some of `keys`, in the order of `keys`. */
  predicate IsSubsequence<K(==)>(sub: seq<K>, keys: seq<K>)
    decreases |keys|
  {
    if |keys| == 0 then sub == []
    else (|sub| > 0 && sub[0] == keys[0] && IsSubsequence(sub[1..], keys[1..])) || IsSubsequence(sub, keys[1..])
  }

  /** Every text of the table is non-empty and none starts another: a report
      can then be read back in one way only. */
  ghost predicate Unambiguous<K>(t: K -> string, keys: seq<K>) {
    && (forall i :: 0 <= i < |keys| ==> |t(keys[i])| > 0)
    && (forall i, j :: 0 <= i < |keys| && 0 <= j < |keys| && i != j ==> !(t(keys[i]) <= t(keys[j])))
  }

  /** Reads `message` as the texts of some of `keys`, in order, taking a key
      whenever its text comes next; `None` when that does not account for the
      whole message. */
  function ReadFrom<K>(t: K -> string, message: string, keys: seq<K>): (r: Option<seq<K>>)
    ensures r.Some? ==> Concat(t, r.value) == message
    decreases |keys|
  {
    if |keys| == 0 then
      if message == "" then Some([]) else None
    else if t(keys[0]) <= message then
      Prepend(t, keys[0], message, ReadFrom(t, message[|t(keys[0])|..], keys[1..]))
    else ReadFrom(t, message, keys[1..])
  }

  /** Puts `k` in front of the keys read from what follows its text. */
  function Prepend<K>(t: K -> string, k: K, message: string, rest: Option<seq<K>>): (r: Option<seq<K>>)
    requires t(k) <= message
    requires rest.Some? ==> Concat(t, rest.value) == message[|t(k)|..]
    ensures r.Some? ==> Concat(t, r.value) == message
  {
    match rest
    case None => None
    case Some(ks) =>
      ConcatCons(t, k, ks);
      assert message == t(k) + message[|t(k)|..];
      Some([k] + ks)
  }

  /** A string that starts `y + tail` either starts `y` or is started by `y`. */
  lemma PrefixOfExtension(x: string, y: string, tail: string)
    ensures x <= y + tail ==> x <= y || y <= x
  {
    if x <= y + tail {
      if |x| <= |y| {
        assert x == (y + tail)[..|x|] == y[..|x|];
      } else {
        assert y == (y + tail)[..|y|] == x[..|y|];
      }
    }
  }

  lemma {:induction false} SubsequenceHead<K>(sub: seq<K>, keys: seq<K>) returns (j: nat)
    requires IsSubsequence(sub, keys) && |sub| > 0
    ensures j < |keys| && keys[j] == sub[0]
  {
    if |keys| > 0 && sub[0] == keys[0] {
      j := 0;
    } else {
      var j' := SubsequenceHead(sub, keys[1..]);
      j := j' + 1;
    }
  }

  lemma UnambiguousTail<K>(t: K -> string, keys: seq<K>)
    requires |keys| > 0 && Unambiguous(t, keys)
    ensures Unambiguous(t, keys[1..])
  {
    forall i, j | 0 <= i < |keys[1..]| && 0 <= j < |keys[1..]| && i != j
      ensures !(t(keys[1..][i]) <= t(keys[1..][j]))
    {
      assert keys[1..][i] == keys[i + 1] && keys[1..][j] == keys[j + 1];
    }
  }

  /** A report over an ordered selection of unambiguous keys reads back as
      exactly that selection. */
  lemma {:induction false} ReadConcat<K>(t: K -> string, keys: seq<K>, sub: seq<K>)
    requires Unambiguous(t, keys) && IsSubsequence(sub, keys)
    ensures ReadFrom(t, Concat(t, sub), keys) == Some(sub)
  {
    if |keys| > 0 {
      UnambiguousTail(t, keys);
      var message := Concat(t, sub);
      if |sub| > 0 && sub[0] == keys[0] && IsSubsequence(sub[1..], keys[1..]) {
        ReadConcat(t, keys[1..], sub[1..]);
        assert message == t(keys[0]) + Concat(t, sub[1..]);
        assert message[|t(keys[0])|..] == Concat(t, sub[1..]);
        assert [keys[0]] + sub[1..] == sub;
      } else {
        ReadConcat(t, keys[1..], sub);
        if |sub| > 0 {
          var j := SubsequenceHead(sub, keys[1..]);
          assert keys[j + 1] == sub[0];
          assert !(t(keys[0]) <= t(sub[0])) && !(t(sub[0]) <= t(keys[0]));
          PrefixOfExtension(t(keys[0]), t(sub[0]), Concat(t, sub[1..]));
        } else {
          assert |t(keys[0])| > 0;
        }
      }
    }
  }
}
