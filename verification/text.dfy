/** String helpers shared by the organism tree: joining, prefixed
    concatenation (the shape the Java code builds with `+=`), ASCII case
    folding for `equalsIgnoreCase`, and first-match search over names. */
module Text {

  /** `parts` separated by `sep`, as `String.join` would produce. */
  function Join(parts: seq<string>, sep: string): string
  {
    if |parts| == 0 then ""
    else if |parts| == 1 then parts[0]
    else parts[0] + sep + Join(parts[1..], sep)
  }

  /** Joining two parts. */
  lemma JoinTwo(a: string, b: string, sep: string)
    ensures Join([a, b], sep) == a + sep + b
  {
    assert [a, b][1..] == [b];
  }

  /** Joining three parts. */
  lemma JoinThree(a: string, b: string, c: string, sep: string)
    ensures Join([a, b, c], sep) == a + sep + b + sep + c
  {
    assert [a, b, c][1..] == [b, c];
    JoinTwo(b, c, sep);
    assert Join([a, b, c], sep) == a + sep + (b + sep + c);
  }

  /** Every part preceded by `sep`: the string the Java traversals build by
      appending `sep + name` once per visited name. */
  function Prefixed(parts: seq<string>, sep: string): string
  {
    if parts == [] then "" else sep + parts[0] + Prefixed(parts[1..], sep)
  }

  /** Dropping the leading separator of a prefixed concatenation gives the
      joined list; this is why the Java code ends with a `substring`. */
  lemma {:induction false} PrefixedIsSepJoin(parts: seq<string>, sep: string)
    requires parts != []
    ensures Prefixed(parts, sep) == sep + Join(parts, sep)
  {
    if |parts| > 1 {
      PrefixedIsSepJoin(parts[1..], sep);
      calc {
        Prefixed(parts, sep);
        sep + parts[0] + Prefixed(parts[1..], sep);
        sep + parts[0] + (sep + Join(parts[1..], sep));
        sep + (parts[0] + sep + Join(parts[1..], sep));
      }
    } else {
      assert parts[1..] == [];
    }
  }

  /** Prefixed concatenation distributes over concatenation of the lists. */
  lemma {:induction false} PrefixedAppend(a: seq<string>, b: seq<string>, sep: string)
    ensures Prefixed(a + b, sep) == Prefixed(a, sep) + Prefixed(b, sep)
  {
    if a == [] {
      assert a + b == b;
    } else {
      assert (a + b)[1..] == a[1..] + b;
      PrefixedAppend(a[1..], b, sep);
    }
  }

  lemma PrefixedEmpty(parts: seq<string>, sep: string)
    requires sep != []
    ensures Prefixed(parts, sep) == [] <==> parts == []
  {
  }

  /** ASCII lower-casing of one character. */
  function Lower(c: char): char
  {
    if 'A' <= c <= 'Z' then (c as int + 32) as char else c
  }

  /** Java's `equalsIgnoreCase`, restricted to ASCII case folding. */
  function EqualsIgnoreCase(a: string, b: string): (r: bool)
    ensures r <==> |a| == |b| && forall i :: 0 <= i < |a| ==> Lower(a[i]) == Lower(b[i])
  {
    if |a| != |b| then false
    else if a == [] then true
    else
      assert forall j :: 0 <= j < |a| - 1 ==> a[1..][j] == a[j + 1] && b[1..][j] == b[j + 1];
      Lower(a[0]) == Lower(b[0]) && EqualsIgnoreCase(a[1..], b[1..])
  }

  /** Name comparison: `equals` when `ignoreCase` is false, `equalsIgnoreCase`
      when it is true. */
  predicate Matches(a: string, b: string, ignoreCase: bool)
  {
    if ignoreCase then EqualsIgnoreCase(a, b) else a == b
  }

  /** Index of the first name matching `x`, or `|names|` when none does. */
  function FirstMatch(names: seq<string>, x: string, ignoreCase: bool): (k: nat)
    ensures k <= |names|
    ensures forall j :: 0 <= j < k ==> !Matches(names[j], x, ignoreCase)
    ensures k < |names| ==> Matches(names[k], x, ignoreCase)
  {
    if names == [] then 0
    else if Matches(names[0], x, ignoreCase) then 0
    else 1 + FirstMatch(names[1..], x, ignoreCase)
  }
}
