/** Reference definitions for the text the varargs service methods derive from
    their keys: each key's text form, and those texts joined by a separator. */
module KeyText {

  /** The separator placed between consecutive keys in a log message. */
  const Separator: string := ", "

  /** Each key converted to its text form (`toString`), in order. */
  function Texts<K>(keys: seq<K>, show: K -> string): (ts: seq<string>)
    ensures |ts| == |keys|
    ensures forall i :: 0 <= i < |keys| ==> ts[i] == show(keys[i])
  {
    seq(|keys|, i requires 0 <= i < |keys| => show(keys[i]))
  }

  /** `parts` with `sep` between each consecutive pair: no separator before the
      first part or after the last. */
  function Join(parts: seq<string>, sep: string): (s: string)
  {
    if |parts| == 0 then ""
    else if |parts| == 1 then parts[0]
    else Join(parts[..|parts| - 1], sep) + sep + parts[|parts| - 1]
  }

  /** The summed length of all parts. */
  function TotalLength(parts: seq<string>): (n: nat)
  {
    if |parts| == 0 then 0 else TotalLength(parts[..|parts| - 1]) + |parts[|parts| - 1]|
  }

  /** A join of n parts holds the parts and exactly n - 1 separators. */
  lemma {:induction false} JoinLength(parts: seq<string>, sep: string)
    requires |parts| > 0
    ensures |Join(parts, sep)| == TotalLength(parts) + (|parts| - 1) * |sep|
  {
    if |parts| > 1 {
      var init, last := parts[..|parts| - 1], parts[|parts| - 1];
      JoinLength(init, sep);
      assert Join(parts, sep) == Join(init, sep) + sep + last;
      assert TotalLength(parts) == TotalLength(init) + |last|;
      assert (|init| - 1) * |sep| + |sep| == (|parts| - 1) * |sep| by {
        assert |init| == |parts| - 1;
      }
    }
  }

  /** Read from the front, a join is the first part, a separator, and the join of
      the rest; together with the definition this says the separators sit only
      between parts. */
  lemma {:induction false} JoinFront(parts: seq<string>, sep: string)
    requires |parts| >= 2
    ensures Join(parts, sep) == parts[0] + sep + Join(parts[1..], sep)
  {
    var n := |parts|;
    if n == 2 {
      assert parts[..1] == [parts[0]];
      assert parts[1..] == [parts[1]];
    } else {
      var init := parts[..n - 1];
      JoinFront(init, sep);
      assert init[1..] == parts[1..][..n - 2];
      assert parts[1..][n - 2] == parts[n - 1];
      calc {
        Join(parts, sep);
        Join(init, sep) + sep + parts[n - 1];
        parts[0] + sep + Join(init[1..], sep) + sep + parts[n - 1];
        parts[0] + sep + (Join(parts[1..][..n - 2], sep) + sep + parts[1..][n - 2]);
        parts[0] + sep + Join(parts[1..], sep);
      }
    }
  }

  /** Appending one more part adds one separator and the part. */
  lemma JoinSnoc(parts: seq<string>, p: string, sep: string)
    ensures Join(parts + [p], sep) == if |parts| == 0 then p else Join(parts, sep) + sep + p
  {
  }
}
