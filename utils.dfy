/**
 * The pure helpers of scripts/utils.mjs and scripts/Utils.php (with their
 * copies `fmtSize`/`formatSize` in scripts/build-index.mjs and
 * scripts/build-index.php, and `html` in scripts/build-index.mjs).
 */
module Utils {
  import opened Wrappers
  import opened Text

  const KiB: nat := 1024
  const MiB: nat := 1024 * 1024

  /** The unit `formatSize` writes after the number. */
  datatype SizeUnit = MB | KB | B

  /** The unit `formatSize` chooses for a byte count. */
  function SizeUnitOf(bytes: nat): (u: SizeUnit)
    ensures u == MB <==> bytes >= MiB
    ensures u == KB <==> KiB <= bytes < MiB
    ensures u == B <==> bytes < KiB
  {
    if bytes >= MiB then MB else if bytes >= KiB then KB else B
  }

  /**
   * `formatSize(bytes)`. Only the unit choice and the plain-bytes branch are modelled:
   * `scaled` stands for the text `toFixed`/`number_format` writes for the scaled value.
   */
  function FormatSize(bytes: nat, scaled: string): (r: string)
  {
    match SizeUnitOf(bytes)
    case MB => scaled + " MB"
    case KB => scaled + " KB"
    case B => NatToString(bytes) + " B"
  }

  /** Below 1024 the byte count is written out in full and can be read back; above, a scaled unit is used. */
  lemma FormatSizeBytes(bytes: nat, scaled: string)
    ensures bytes < KiB ==> (EndsWith(FormatSize(bytes, scaled), " B")
      && ParseDigits(FormatSize(bytes, scaled)[..|FormatSize(bytes, scaled)| - 2]) == bytes)
    ensures bytes >= MiB <==> EndsWith(FormatSize(bytes, scaled), " MB")
    ensures KiB <= bytes < MiB ==> FormatSize(bytes, scaled) == scaled + " KB"
  {
    var r := FormatSize(bytes, scaled);
    if bytes < KiB {
      assert r[..|r| - 2] == NatToString(bytes);
      ParseNatToString(bytes);
      assert r[|r| - 3] in NatToString(bytes);
    } else if bytes < MiB {
      assert r[|r| - 3..] == " KB";
    }
  }

  /**
   * The `html` template tag: each literal piece followed by the value at the same
   * position, a missing, `null` or `undefined` value contributing nothing.
   * Values beyond the last piece are dropped.
   */
  function Html(strings: seq<string>, vals: seq<Option<string>>): (r: string)
    ensures r == Concat(Filled(strings, vals))
    ensures |r| >= |Concat(strings)|
  {
    if strings == [] then ""
    else
      var v := if |vals| > 0 then vals[0].GetOr("") else "";
      var rest := if |vals| > 0 then vals[1..] else [];
      FilledCons(strings, vals);
      strings[0] + v + Html(strings[1..], rest)
  }

  function Concat(parts: seq<string>): string {
    if parts == [] then "" else parts[0] + Concat(parts[1..])
  }

  /** The value the tag puts after piece `i`: the `i`-th value, or "" when it is absent or missing. */
  function Slot(vals: seq<Option<string>>, i: nat): string {
    if i < |vals| then vals[i].GetOr("") else ""
  }

  /** Each literal piece followed by its slot's value. */
  function Filled(strings: seq<string>, vals: seq<Option<string>>): seq<string> {
    seq(|strings|, i requires 0 <= i < |strings| => strings[i] + Slot(vals, i))
  }

  /** Peeling the first piece off `Filled`: its first entry, then the rest against the remaining values. */
  lemma FilledCons(strings: seq<string>, vals: seq<Option<string>>)
    requires strings != []
    ensures var rest := if |vals| > 0 then vals[1..] else [];
      Filled(strings, vals) == [strings[0] + Slot(vals, 0)] + Filled(strings[1..], rest)
      && Concat(Filled(strings, vals)) == strings[0] + Slot(vals, 0) + Concat(Filled(strings[1..], rest))
  {
    var rest := if |vals| > 0 then vals[1..] else [];
    var f := Filled(strings, vals);
    var g := Filled(strings[1..], rest);
    forall i | 0 <= i < |g|
      ensures f[i + 1] == g[i]
    {
      assert Slot(rest, i) == Slot(vals, i + 1);
    }
    assert f == [f[0]] + g;
  }

  /** The piece-and-value sequence the tag concatenates: s0, v0, s1, v1, …. */
  function Interleave(strings: seq<string>, vals: seq<Option<string>>): (r: seq<string>)
    ensures |r| == 2 * |strings|
  {
    if strings == [] then []
    else
      var v := if |vals| > 0 then vals[0].GetOr("") else "";
      [strings[0], v] + Interleave(strings[1..], if |vals| > 0 then vals[1..] else [])
  }

  lemma {:induction false} ConcatAppend(a: seq<string>, b: seq<string>)
    ensures Concat(a + b) == Concat(a) + Concat(b)
  {
    if a != [] {
      assert (a + b)[1..] == a[1..] + b;
      ConcatAppend(a[1..], b);
    } else {
      assert a + b == b;
    }
  }

  /** `html` equals s0 + v0 + s1 + v1 + … with absent values read as "". */
  lemma {:induction false} HtmlIsInterleave(strings: seq<string>, vals: seq<Option<string>>)
    ensures Html(strings, vals) == Concat(Interleave(strings, vals))
  {
    if strings != [] {
      var v := if |vals| > 0 then vals[0].GetOr("") else "";
      var rest := if |vals| > 0 then vals[1..] else [];
      HtmlIsInterleave(strings[1..], rest);
      ConcatAppend([strings[0], v], Interleave(strings[1..], rest));
      assert Concat([strings[0], v]) == strings[0] + v;
    }
  }

  /** With no value present the tag returns the literal pieces, concatenated. */
  lemma {:induction false} HtmlWithoutValues(strings: seq<string>, vals: seq<Option<string>>)
    requires forall i :: 0 <= i < |vals| ==> vals[i] == None
    ensures Html(strings, vals) == Concat(strings)
  {
    if strings != [] {
      HtmlWithoutValues(strings[1..], if |vals| > 0 then vals[1..] else []);
    }
  }
}
