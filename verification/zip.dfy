/** The contribution of an ordered-mapping value (lazygridv2.py:83-115):
    every sub-key's expression is evaluated, and the i-th string pairs the
    i-th value of every sub-key. This is a zip, not a product. */
module Zip {
  import opened Model
  import opened Text

  /** One pass of the sub-key loop at index `idx`. `width` is the length
      fixed by the first sub-key, or -1 before any sub-key was seen; `line`
      is the text built so far. Each sub-key is length-checked before it is
      indexed. On success the built line and the (possibly just fixed)
      width come back. */
  function ZipRow(entries: seq<(string, string)>, eval: Evaluator, id: string,
                  idx: nat, width: int, line: string): (r: Result<(string, int)>)
    requires width >= -1
    ensures r.Ok? ==> r.value.1 >= -1
    ensures r.Ok? && width >= 0 ==> r.value.1 == width
    ensures r.Ok? && |entries| > 0 ==> idx < r.value.1 == |eval(entries[0].1, id)|
    ensures |entries| > 0 && width >= 0 && |eval(entries[0].1, id)| != width
            ==> r == Fail(LengthMismatch(|eval(entries[0].1, id)|, width))
    decreases |entries|
  {
    if |entries| == 0 then Ok((line, width))
    else
      var values := eval(entries[0].1, id);
      if width != -1 && width != |values| then Fail(LengthMismatch(|values|, width))
      else if idx >= |values| then Fail(IndexOutOfRange(idx, |values|))
      else ZipRow(entries[1..], eval, id, idx, |values|,
                  line + (entries[0].0 + " " + values[idx] + " "))
  }

  /** Reference text of row `idx`: for every sub-key `k` in order, the
      fragment `k + " " + value_k[idx] + " "`. */
  function RowText(entries: seq<(string, string)>, eval: Evaluator, id: string, idx: nat): string
    requires forall k :: 0 <= k < |entries| ==> idx < |eval(entries[k].1, id)|
    decreases |entries|
  {
    if |entries| == 0 then ""
    else entries[0].0 + " " + eval(entries[0].1, id)[idx] + " " + RowText(entries[1..], eval, id, idx)
  }

  /** The iterations of the do-while loop from index `idx` on, once the
      width is known. */
  function ZipFrom(cmd: string, entries: seq<(string, string)>, eval: Evaluator, id: string,
                   idx: nat, width: nat): (r: Result<seq<string>>)
    requires idx < width
    ensures r.Ok? ==> |r.value| == width - idx
    decreases width - idx
  {
    var row :- ZipRow(entries, eval, id, idx, width, "");
    var out := Strip(cmd + " " + row.0);
    if idx + 1 >= width then Ok([out])
    else
      var rest :- ZipFrom(cmd, entries, eval, id, idx + 1, width);
      Ok([out] + rest)
  }

  /** The strings one accumulator element `cmd` yields for an ordered-mapping
      value: the do-while loop runs its body once before testing the width. */
  function ZipContribution(cmd: string, entries: seq<(string, string)>, eval: Evaluator, id: string)
    : (r: Result<seq<string>>)
    ensures r.Ok? ==> |r.value| >= 1
    ensures r.Ok? && |entries| > 0 ==> |r.value| == |eval(entries[0].1, id)|
    ensures |entries| == 0 ==> r == Ok([Strip(cmd + " ")])
    ensures |entries| > 0 && |eval(entries[0].1, id)| == 0 ==> r == Fail(IndexOutOfRange(0, 0))
  {
    var first :- ZipRow(entries, eval, id, 0, -1, "");
    assert |entries| == 0 ==> cmd + " " + first.0 == cmd + " ";
    var out := Strip(cmd + " " + first.0);
    if 1 >= first.1 then Ok([out])
    else
      var rest :- ZipFrom(cmd, entries, eval, id, 1, first.1);
      Ok([out] + rest)
  }

  /** Every sub-key's expression evaluates to exactly `width` values. */
  ghost predicate UniformWidth(entries: seq<(string, string)>, eval: Evaluator, id: string, width: nat) {
    forall k :: 0 <= k < |entries| ==> |eval(entries[k].1, id)| == width
  }

  /** With uniform widths a row never fails, and it appends the reference text. */
  lemma {:induction false} ZipRowUniform(entries: seq<(string, string)>, eval: Evaluator, id: string,
                                         idx: nat, width: int, line: string, w: nat)
    requires width == -1 || width == w
    requires idx < w
    requires UniformWidth(entries, eval, id, w)
    ensures ZipRow(entries, eval, id, idx, width, line)
            == Ok((line + RowText(entries, eval, id, idx), if |entries| == 0 then width else w))
    decreases |entries|
  {
    if |entries| > 0 {
      var values := eval(entries[0].1, id);
      var piece := entries[0].0 + " " + values[idx] + " ";
      assert UniformWidth(entries[1..], eval, id, w) by {
        forall k | 0 <= k < |entries[1..]| ensures |eval(entries[1..][k].1, id)| == w {
          assert entries[1..][k] == entries[k + 1];
        }
      }
      ZipRowUniform(entries[1..], eval, id, idx, w, line + piece, w);
      assert ZipRow(entries[1..], eval, id, idx, w, line + piece) == Ok((line + piece + RowText(entries[1..], eval, id, idx), w));
      assert ZipRow(entries, eval, id, idx, width, line) == ZipRow(entries[1..], eval, id, idx, w, line + piece);
      assert RowText(entries, eval, id, idx) == piece + RowText(entries[1..], eval, id, idx);
      assert line + piece + RowText(entries[1..], eval, id, idx)
          == line + RowText(entries, eval, id, idx);
    } else {
      assert line + "" == line;
    }
  }

  /** With uniform widths, the iterations from `idx` on succeed, and the
      j-th of them yields the trimmed join of `cmd` with row `idx + j`. */
  lemma {:induction false} ZipFromAt(cmd: string, entries: seq<(string, string)>, eval: Evaluator,
                                     id: string, idx: nat, width: nat, j: nat)
    requires |entries| > 0
    requires idx + j < width
    requires UniformWidth(entries, eval, id, width)
    ensures ZipFrom(cmd, entries, eval, id, idx, width).Ok?
    ensures ZipFrom(cmd, entries, eval, id, idx, width).value[j]
            == Strip(cmd + " " + RowText(entries, eval, id, idx + j))
    decreases width - idx
  {
    ZipRowUniform(entries, eval, id, idx, width, "", width);
    var text := RowText(entries, eval, id, idx);
    assert "" + text == text;
    var out := Strip(cmd + " " + text);
    if idx + 1 < width {
      var rest := ZipFrom(cmd, entries, eval, id, idx + 1, width);
      if j > 0 {
        ZipFromAt(cmd, entries, eval, id, idx + 1, width, j - 1);
        assert idx + 1 + (j - 1) == idx + j;
      } else {
        ZipFromAt(cmd, entries, eval, id, idx + 1, width, 0);
      }
      assert ZipFrom(cmd, entries, eval, id, idx, width) == Ok([out] + rest.value);
    } else {
      assert ZipFrom(cmd, entries, eval, id, idx, width) == Ok([out]);
    }
  }

  /** The remaining iterations produce rows `idx` .. `width - 1`, in order. */
  lemma {:induction false} ZipFromUniform(cmd: string, entries: seq<(string, string)>, eval: Evaluator,
                                          id: string, idx: nat, width: nat)
    requires |entries| > 0
    requires idx < width
    requires UniformWidth(entries, eval, id, width)
    ensures ZipFrom(cmd, entries, eval, id, idx, width).Ok?
    ensures |ZipFrom(cmd, entries, eval, id, idx, width).value| == width - idx
    ensures forall j :: 0 <= j < width - idx ==>
      ZipFrom(cmd, entries, eval, id, idx, width).value[j]
        == Strip(cmd + " " + RowText(entries, eval, id, idx + j))
  {
    forall j | 0 <= j < width - idx
      ensures ZipFrom(cmd, entries, eval, id, idx, width).Ok?
      ensures ZipFrom(cmd, entries, eval, id, idx, width).value[j]
              == Strip(cmd + " " + RowText(entries, eval, id, idx + j))
    {
      ZipFromAt(cmd, entries, eval, id, idx, width, j);
    }
    ZipFromAt(cmd, entries, eval, id, idx, width, 0);
  }

  /** With every sequence of the same length `w` >= 1, an accumulator element
      yields exactly `w` strings, the i-th pairing the i-th values of all
      sub-keys: a zip, with no cross-multiplication between sub-keys. */
  lemma {:induction false} ZipShape(cmd: string, entries: seq<(string, string)>, eval: Evaluator, id: string, w: nat)
    requires |entries| > 0 && w >= 1
    requires UniformWidth(entries, eval, id, w)
    ensures ZipContribution(cmd, entries, eval, id).Ok?
    ensures |ZipContribution(cmd, entries, eval, id).value| == w
    ensures forall i :: 0 <= i < w ==>
      ZipContribution(cmd, entries, eval, id).value[i] == Strip(cmd + " " + RowText(entries, eval, id, i))
  {
    ZipRowUniform(entries, eval, id, 0, -1, "", w);
    var text := RowText(entries, eval, id, 0);
    assert "" + text == text;
    var out := Strip(cmd + " " + text);
    if 1 < w {
      ZipFromUniform(cmd, entries, eval, id, 1, w);
      var rest := ZipFrom(cmd, entries, eval, id, 1, w).value;
      assert ZipContribution(cmd, entries, eval, id) == Ok([out] + rest);
      forall i | 0 <= i < w
        ensures ([out] + rest)[i] == Strip(cmd + " " + RowText(entries, eval, id, i))
      {
        if i > 0 {
          var k := i - 1;
          assert ([out] + rest)[i] == rest[k];
          assert rest[k] == Strip(cmd + " " + RowText(entries, eval, id, 1 + k));
        } else {
          assert ([out] + rest)[i] == out;
        }
      }
    }
  }

  /** Once the width is fixed, the first sub-key whose sequence has another
      length raises the length error, before any indexing of it. */
  lemma {:induction false} ZipRowMismatch(entries: seq<(string, string)>, eval: Evaluator, id: string,
                                          idx: nat, w: nat, line: string, j: nat)
    requires idx < w
    requires j < |entries|
    requires forall k :: 0 <= k < j ==> |eval(entries[k].1, id)| == w
    requires |eval(entries[j].1, id)| != w
    ensures ZipRow(entries, eval, id, idx, w, line) == Fail(LengthMismatch(|eval(entries[j].1, id)|, w))
    decreases |entries|
  {
    if j > 0 {
      var piece := entries[0].0 + " " + eval(entries[0].1, id)[idx] + " ";
      ZipRowMismatch(entries[1..], eval, id, idx, w, line + piece, j - 1);
    }
  }

  /** A sub-key whose sequence differs in length from the first sub-key's
      makes the whole value fail with the length error naming both lengths,
      whatever the accumulator element. */
  lemma {:induction false} ZipMismatch(cmd: string, entries: seq<(string, string)>, eval: Evaluator, id: string, j: nat)
    requires 0 < j < |entries|
    requires |eval(entries[0].1, id)| >= 1
    requires forall k :: 0 < k < j ==> |eval(entries[k].1, id)| == |eval(entries[0].1, id)|
    requires |eval(entries[j].1, id)| != |eval(entries[0].1, id)|
    ensures ZipContribution(cmd, entries, eval, id)
            == Fail(LengthMismatch(|eval(entries[j].1, id)|, |eval(entries[0].1, id)|))
  {
    var w := |eval(entries[0].1, id)|;
    var piece := entries[0].0 + " " + eval(entries[0].1, id)[0] + " ";
    ZipRowMismatch(entries[1..], eval, id, 0, w, piece, j - 1);
    assert "" + piece == piece;
  }
}
