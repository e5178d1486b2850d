/**
 * `http_build_query` on the conditions array: one `key=value` pair per
 * scalar entry, joined by `&`, in the order of the entries. Null entries are
 * skipped, booleans are written 1 and 0, and a nested array contributes its
 * own pairs under the key `outer[inner]` (brackets percent-encoded).
 */
module QueryString {
  import opened PhpValues
  import PhpStrings
  import UrlEncoding
  import SeqFacts

  /** How http_build_query writes a scalar. */
  function ScalarText(v: Value): string
  {
    match v
    case Bool(b) => if b then "1" else "0"
    case Int(i) => PhpStrings.IntToDecimal(i)
    case Str(s) => s
    case _ => ""
  }

  /** The encoded name of an entry: its key alone at top level, `prefix[key]` inside a nested array. */
  function PairName(prefix: string, nested: bool, k: string): string
  {
    if nested then prefix + "%5B" + UrlEncoding.UrlEncode(k) + "%5D" else UrlEncoding.UrlEncode(k)
  }

  /** The `name=value` pairs of the entries of the array `v` from position `from` on, in order. */
  function Pairs(prefix: string, nested: bool, v: Value, from: nat): seq<string>
    requires v.Arr? && from <= |v.entries|
    decreases v, |v.entries| - from
  {
    if from == |v.entries| then []
    else
      var (k, x) := v.entries[from];
      var name := PairName(prefix, nested, k);
      var here :=
        match x
        case Null => []
        case Arr(_) => Pairs(name, true, x, 0)
        case _ => [name + "=" + UrlEncoding.UrlEncode(ScalarText(x))];
      here + Pairs(prefix, nested, v, from + 1)
  }

  /** `http_build_query(m)`. */
  function BuildQuery(m: seq<(string, Value)>): string
  {
    PhpStrings.Join(Pairs("", false, Arr(m), 0), "&")
  }

  /** The characters a query string is made of. */
  predicate QueryChar(c: char)
  {
    UrlEncoding.Encoded(c) || c == '=' || c == '&'
  }

  /** A single pair: query characters, and no `&` of its own. */
  predicate PairText(p: string)
  {
    forall i :: 0 <= i < |p| ==> QueryChar(p[i]) && p[i] != '&'
  }

  predicate AllPairText(ps: seq<string>)
  {
    forall j :: 0 <= j < |ps| ==> PairText(ps[j])
  }

  predicate EncodedText(s: string)
  {
    forall i :: 0 <= i < |s| ==> UrlEncoding.Encoded(s[i])
  }

  lemma {:induction false} PairsChars(prefix: string, nested: bool, v: Value, from: nat)
    requires v.Arr? && from <= |v.entries|
    requires EncodedText(prefix)
    ensures AllPairText(Pairs(prefix, nested, v, from))
    decreases v, |v.entries| - from
  {
    if from < |v.entries| {
      var (k, x) := v.entries[from];
      var name := PairName(prefix, nested, k);
      NameChars(prefix, nested, k);
      var rest := Pairs(prefix, nested, v, from + 1);
      PairsChars(prefix, nested, v, from + 1);
      if x.Arr? {
        PairsChars(name, true, x, 0);
        AllPairTextAppend(Pairs(name, true, x, 0), rest);
      } else if x.Null? {
      } else {
        ScalarPairText(name, x);
        AllPairTextAppend([name + "=" + UrlEncoding.UrlEncode(ScalarText(x))], rest);
      }
    }
  }

  lemma NameChars(prefix: string, nested: bool, k: string)
    requires EncodedText(prefix)
    ensures EncodedText(PairName(prefix, nested, k))
  {
  }

  lemma ScalarPairText(name: string, x: Value)
    requires EncodedText(name)
    ensures PairText(name + "=" + UrlEncoding.UrlEncode(ScalarText(x)))
  {
  }

  lemma AllPairTextAppend(a: seq<string>, b: seq<string>)
    requires AllPairText(a) && AllPairText(b)
    ensures AllPairText(a + b)
  {
    forall j | 0 <= j < |a + b| ensures PairText((a + b)[j]) {
      if j < |a| { assert (a + b)[j] == a[j]; } else { assert (a + b)[j] == b[j - |a|]; }
    }
  }

  lemma {:induction false} JoinChars(parts: seq<string>)
    requires AllPairText(parts)
    ensures forall i :: 0 <= i < |PhpStrings.Join(parts, "&")| ==> QueryChar(PhpStrings.Join(parts, "&")[i])
  {
    if |parts| > 1 {
      JoinChars(parts[1..]);
      assert PairText(parts[0]);
      var rest := PhpStrings.Join(parts[1..], "&");
      assert PhpStrings.Join(parts, "&") == parts[0] + "&" + rest;
    } else if |parts| == 1 {
      assert PairText(parts[0]);
    }
  }

  /**
   * A query string consists of unreserved characters, `%`, `+`, `=` and `&`
   * only; in particular it never holds a `?`, a `#` or a `/`.
   */
  lemma QueryStringChars(m: seq<(string, Value)>)
    ensures forall i :: 0 <= i < |BuildQuery(m)| ==> QueryChar(BuildQuery(m)[i])
    ensures '?' !in BuildQuery(m) && '#' !in BuildQuery(m) && '/' !in BuildQuery(m)
  {
    PairsChars("", false, Arr(m), 0);
    JoinChars(Pairs("", false, Arr(m), 0));
  }

  predicate UnreservedText(s: string)
  {
    forall i :: 0 <= i < |s| ==> UrlEncoding.Unreserved(s[i])
  }

  /** Entries with plain keys and plain string values are written verbatim as `key=value`. */
  predicate PlainEntries(m: seq<(string, Value)>)
  {
    forall i :: 0 <= i < |m| ==> UnreservedText(m[i].0) && m[i].1.Str? && UnreservedText(m[i].1.s)
  }

  function PlainPair(e: (string, Value)): string
    requires e.1.Str?
  {
    e.0 + "=" + e.1.s
  }

  /** One step of Pairs over a scalar entry. */
  lemma PairsScalarStep(prefix: string, nested: bool, v: Value, from: nat)
    requires v.Arr? && from < |v.entries|
    requires !v.entries[from].1.Null? && !v.entries[from].1.Arr?
    ensures Pairs(prefix, nested, v, from) ==
      [PairName(prefix, nested, v.entries[from].0) + "=" + UrlEncoding.UrlEncode(ScalarText(v.entries[from].1))]
      + Pairs(prefix, nested, v, from + 1)
  {
  }

  /** The pairs of plain entries from `from` on, written out. */
  function PlainPairsFrom(m: seq<(string, Value)>, from: nat): seq<string>
    requires PlainEntries(m) && from <= |m|
  {
    seq(|m| - from, j requires 0 <= j < |m| - from => PlainPair(m[from + j]))
  }

  lemma PlainPairsFromStep(m: seq<(string, Value)>, from: nat)
    requires PlainEntries(m) && from < |m|
    ensures PlainPairsFrom(m, from) == [PlainPair(m[from])] + PlainPairsFrom(m, from + 1)
  {
    var want := PlainPairsFrom(m, from);
    var rest := PlainPairsFrom(m, from + 1);
    assert |want| == 1 + |rest|;
    forall j | 0 <= j < |rest| ensures want[j + 1] == rest[j] {
      assert from + (j + 1) == from + 1 + j;
    }
  }

  lemma PlainPairStep(m: seq<(string, Value)>, from: nat)
    requires PlainEntries(m) && from < |m|
    ensures Pairs("", false, Arr(m), from) == [PlainPair(m[from])] + Pairs("", false, Arr(m), from + 1)
  {
    var e := m[from];
    UrlEncoding.UrlEncodeUnreserved(e.0);
    UrlEncoding.UrlEncodeUnreserved(e.1.s);
    PairsScalarStep("", false, Arr(m), from);
  }

  lemma {:induction false} PlainPairs(m: seq<(string, Value)>, from: nat)
    requires PlainEntries(m) && from <= |m|
    ensures Pairs("", false, Arr(m), from) == PlainPairsFrom(m, from)
    decreases |m| - from
  {
    if from < |m| {
      PlainPairStep(m, from);
      PlainPairs(m, from + 1);
      PlainPairsFromStep(m, from);
    }
  }

  /** Plain entries give `k1=v1&k2=v2&...` in the order of the entries. */
  lemma PlainQuery(m: seq<(string, Value)>)
    requires PlainEntries(m)
    ensures BuildQuery(m) == PhpStrings.Join(seq(|m|, i requires 0 <= i < |m| => PlainPair(m[i])), "&")
  {
    PlainPairs(m, 0);
    assert PlainPairsFrom(m, 0) == seq(|m|, i requires 0 <= i < |m| => PlainPair(m[i]));
  }

  /** Null entries contribute nothing. */
  lemma {:induction false} NullEntriesNoPairs(m: seq<(string, Value)>, from: nat)
    requires from <= |m|
    requires forall i :: 0 <= i < |m| ==> m[i].1 == Null
    ensures Pairs("", false, Arr(m), from) == []
    decreases |m| - from
  {
    if from < |m| {
      NullEntriesNoPairs(m, from + 1);
    }
  }

  /** A query built from null entries only is the empty string. */
  lemma NullEntriesGiveEmptyQuery(m: seq<(string, Value)>)
    requires forall i :: 0 <= i < |m| ==> m[i].1 == Null
    ensures BuildQuery(m) == ""
  {
    NullEntriesNoPairs(m, 0);
  }

  /** The pairs one entry contributes. */
  function EntryPairs(prefix: string, nested: bool, e: (string, Value)): seq<string>
  {
    var name := PairName(prefix, nested, e.0);
    match e.1
    case Null => []
    case Arr(_) => Pairs(name, true, e.1, 0)
    case _ => [name + "=" + UrlEncoding.UrlEncode(ScalarText(e.1))]
  }

  /** One step of Pairs: the entry at `from`, then the rest. */
  lemma PairsStep(prefix: string, nested: bool, v: Value, from: nat)
    requires v.Arr? && from < |v.entries|
    ensures Pairs(prefix, nested, v, from) == EntryPairs(prefix, nested, v.entries[from]) + Pairs(prefix, nested, v, from + 1)
  {
  }

  /** The pairs of the entries of `b`, read from inside `a + b`, are those of `b` alone. */
  lemma {:induction false} PairsShift(prefix: string, nested: bool, a: seq<(string, Value)>, b: seq<(string, Value)>, j: nat)
    requires j <= |b|
    ensures Pairs(prefix, nested, Arr(a + b), |a| + j) == Pairs(prefix, nested, Arr(b), j)
    decreases |b| - j
  {
    if j < |b| {
      assert (a + b)[|a| + j] == b[j];
      PairsShift(prefix, nested, a, b, j + 1);
    }
  }

  /** The pairs of `a + b` are the pairs of `a` followed by those of `b`. */
  lemma {:induction false} PairsSplit(prefix: string, nested: bool, a: seq<(string, Value)>, b: seq<(string, Value)>, j: nat)
    requires j <= |a|
    ensures Pairs(prefix, nested, Arr(a + b), j) == Pairs(prefix, nested, Arr(a), j) + Pairs(prefix, nested, Arr(b), 0)
    decreases |a| - j
  {
    if j == |a| {
      PairsShift(prefix, nested, a, b, 0);
    } else {
      var here := EntryPairs(prefix, nested, a[j]);
      assert (a + b)[j] == a[j];
      PairsStep(prefix, nested, Arr(a + b), j);
      PairsStep(prefix, nested, Arr(a), j);
      PairsSplit(prefix, nested, a, b, j + 1);
      SeqFacts.AppendAssoc(here, Pairs(prefix, nested, Arr(a), j + 1), Pairs(prefix, nested, Arr(b), 0));
    }
  }

  /** A null entry anywhere in the map contributes nothing: removing it leaves the query string as it was. */
  lemma NullEntryDropsOut(m: seq<(string, Value)>, i: nat)
    requires i < |m| && m[i].1 == Null
    ensures BuildQuery(m[..i] + m[i + 1..]) == BuildQuery(m)
  {
    var a, c := m[..i], m[i + 1..];
    assert m == a + ([m[i]] + c);
    PairsSplit("", false, a, [m[i]] + c, 0);
    PairsShift("", false, [m[i]], c, 0);
    assert Pairs("", false, Arr([m[i]] + c), 0) == Pairs("", false, Arr([m[i]] + c), 1);
    PairsSplit("", false, a, c, 0);
  }
}
