/** The repeatable command-line flag of run-server: every occurrence of the flag adds
    one value, and the flag prints as the values joined by ", ". */
module Flags {
  import opened Types

  /** strings.Join: the elements in order with sep between neighbours. */
  function Join(elems: seq<string>, sep: string): string {
    if |elems| == 0 then ""
    else if |elems| == 1 then elems[0]
    else elems[0] + sep + Join(elems[1..], sep)
  }

  /** Joining one more element puts a separator and then that element at the end. */
  lemma {:induction false} JoinSnoc(elems: seq<string>, x: string, sep: string)
    ensures Join(elems + [x], sep) == if |elems| == 0 then x else Join(elems, sep) + sep + x
  {
    if |elems| >= 2 {
      assert (elems + [x])[1..] == elems[1..] + [x];
      JoinSnoc(elems[1..], x, sep);
    } else if |elems| == 1 {
      assert (elems + [x])[1..] == [x];
    }
  }

  /** The joined string is as long as the elements plus one separator between each pair. */
  function TotalLength(elems: seq<string>): nat {
    if elems == [] then 0 else |elems[0]| + TotalLength(elems[1..])
  }

  lemma {:induction false} JoinLength(elems: seq<string>, sep: string)
    ensures |Join(elems, sep)| == TotalLength(elems) + (if |elems| == 0 then 0 else (|elems| - 1) * |sep|)
  {
    if |elems| >= 2 {
      JoinLength(elems[1..], sep);
    }
  }

  class StringSliceFlags {
    var values: seq<string>

    constructor ()
      ensures values == []
    {
      values := [];
    }

    /** String: the values in the order they were set, separated by ", ". */
    function String(): (r: string)
      reads this
      ensures |values| == 0 ==> r == ""
      ensures |values| == 1 ==> r == values[0]
    {
      Join(values, ", ")
    }

    /** Set: appends the value after the earlier ones; it never fails. */
    method Set(value: string) returns (err: Option<Error>)
      modifies this
      ensures values == old(values) + [value]
      ensures err == None
      ensures String() == if |old(values)| == 0 then value else old(String()) + ", " + value
    {
      values := values + [value];
      JoinSnoc(old(values), value, ", ");
      return None;
    }
  }
}
