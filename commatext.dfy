/** The translator builds its output as one Python string of Hack instructions
    separated by commas, and finally turns every comma into a newline. A string is
    represented here by the pieces between its commas: "@SP,A=M," is
    ["@SP", "A=M", ""] and "" is [""]. Python's `+` on such strings glues the
    last piece of the left operand to the first piece of the right one, so a
    fragment that forgets its trailing comma fuses two instructions, exactly as
    in the text. */
module CommaText {

  type Frag = seq<string>

  /** Every piece is free of commas, and there is at least one piece. */
  predicate Valid(f: Frag) {
    |f| >= 1 && forall i :: 0 <= i < |f| ==> ',' !in f[i]
  }

  /** The text a fragment stands for. */
  function Join(f: Frag): string
    decreases |f|
  {
    if |f| == 0 then ""
    else if |f| == 1 then f[0]
    else f[0] + "," + Join(f[1..])
  }

  /** The empty string. */
  const Empty: Frag := [""]

  /** The one-character string ",". */
  const Comma: Frag := ["", ""]

  /** Python's string `+` on the comma-separated pieces. */
  function Concat(x: Frag, y: Frag): (r: Frag)
    requires |x| >= 1 && |y| >= 1
    ensures |r| == |x| + |y| - 1
  {
    x[..|x| - 1] + [x[|x| - 1] + y[0]] + y[1..]
  }

  /** Gluing two comma-free texts with `+` creates no comma. */
  lemma ConcatValid(x: Frag, y: Frag)
    requires Valid(x) && Valid(y)
    ensures Valid(Concat(x, y))
  {
    var r := Concat(x, y);
    forall i | 0 <= i < |r| ensures ',' !in r[i] {
      if i < |x| - 1 {
        assert r[i] == x[i];
      } else if i == |x| - 1 {
        assert r[i] == x[|x| - 1] + y[0];
      } else {
        assert r[i] == y[i - |x| + 1];
      }
    }
  }

  /** `x + y + ","` is comma-free between its commas and ends in a comma. */
  lemma AppendComma(x: Frag, y: Frag)
    requires Valid(x) && Valid(y)
    ensures Valid(Concat(Concat(x, y), Comma))
    ensures Concat(Concat(x, y), Comma)[|x| + |y| - 1] == ""
  {
    ConcatValid(x, y);
    assert ',' !in Comma[0] && ',' !in Comma[1];
    ConcatValid(Concat(x, y), Comma);
  }

  /** A fragment ending in a comma is followed directly by the next one's pieces. */
  lemma ConcatAfterComma(x: Frag, y: Frag)
    requires |x| >= 1 && |y| >= 1 && x[|x| - 1] == ""
    ensures Concat(x, y) == x[..|x| - 1] + y
  {
    assert x[|x| - 1] + y[0] == y[0];
    assert [y[0]] + y[1..] == y;
  }

  /** The same, with the left operand split at its closing comma. */
  lemma AfterComma(x: seq<string>, y: Frag)
    requires |y| >= 1
    ensures Concat(x + [""], y) == x + y
  {
    ConcatAfterComma(x + [""], y);
    assert (x + [""])[..|x|] == x;
  }

  /** Gluing after a fragment that is itself a join of two line lists. */
  lemma AppendAfterComma(x: seq<string>, y: seq<string>, z: Frag)
    requires |z| >= 1
    ensures Concat(x + (y + [""]), z) == (x + y) + z == x + (y + z)
  {
    assert x + (y + [""]) == (x + y) + [""];
    AfterComma(x + y, z);
  }

  lemma ConcatEmpty(x: Frag)
    requires |x| >= 1
    ensures Concat(Empty, x) == x && Concat(x, Empty) == x
  {
    ConcatAfterComma(Empty, x);
    assert x[|x| - 1] + "" == x[|x| - 1];
    assert x[..|x| - 1] + [x[|x| - 1]] == x;
  }

  lemma JoinCons(s: string, f: Frag)
    requires |f| >= 1
    ensures Join([s] + f) == s + "," + Join(f)
  {
    assert ([s] + f)[1..] == f;
  }

  /** Gluing a string onto the front of the first piece prefixes the text. */
  lemma {:induction false} JoinPrefix(s: string, f: Frag)
    requires |f| >= 1
    ensures Join([s + f[0]] + f[1..]) == s + Join(f)
  {
    if |f| > 1 {
      JoinCons(s + f[0], f[1..]);
      JoinCons(f[0], f[1..]);
      assert f == [f[0]] + f[1..];
    } else {
      assert [s + f[0]] + f[1..] == [s + f[0]];
    }
  }

  /** The pieces model is faithful: the text of a `Concat` is the Python
      concatenation of the two texts. */
  lemma {:induction false} JoinConcat(x: Frag, y: Frag)
    requires |x| >= 1 && |y| >= 1
    ensures Join(Concat(x, y)) == Join(x) + Join(y)
    decreases |x|
  {
    if |x| == 1 {
      assert Concat(x, y) == [x[0] + y[0]] + y[1..];
      JoinPrefix(x[0], y);
    } else {
      assert Concat(x, y) == [x[0]] + Concat(x[1..], y);
      JoinConcat(x[1..], y);
      JoinCons(x[0], Concat(x[1..], y));
    }
  }

  /** The text of `x + y + ","`. */
  lemma JoinAppendComma(x: Frag, y: Frag)
    requires |x| >= 1 && |y| >= 1
    ensures Join(Concat(Concat(x, y), Comma)) == Join(x) + Join(y) + ","
  {
    JoinConcat(x, y);
    JoinConcat(Concat(x, y), Comma);
    assert Join(Comma) == "" + "," + "";
  }
}
