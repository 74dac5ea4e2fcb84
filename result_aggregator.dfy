/** The end of the `/api/summarize` handler (backend/server.js):
    `results.filter(s => s).join('\n\n')`, and the "Failed to generate
    summary" error when that joined text is blank. */
module ResultAggregator {
  import opened Wrappers
  import opened JsString

  datatype AggregateError = NoSummaryGenerated

  const Separator: string := "\n\n"

  /** `xs.filter(s => s)`: a string is truthy exactly when it is non-empty. */
  function NonEmpty(xs: seq<string>): (r: seq<string>)
    ensures |r| <= |xs|
    ensures forall i :: 0 <= i < |r| ==> r[i] != []
  {
    if xs == [] then []
    else (if xs[0] == [] then [] else [xs[0]]) + NonEmpty(xs[1..])
  }

  /** The filter keeps exactly the non-empty strings: every survivor comes
      from the input, and every non-empty input survives. */
  lemma {:induction false} NonEmptyKeepsExactly(xs: seq<string>, s: string)
    ensures s in NonEmpty(xs) <==> s != [] && s in xs
  {
    if xs != [] {
      NonEmptyKeepsExactly(xs[1..], s);
      assert xs == [xs[0]] + xs[1..];
    }
  }

  /** The survivors are all blank exactly when every input is blank. */
  lemma {:induction false} NonEmptyBlankIff(xs: seq<string>)
    ensures (forall i :: 0 <= i < |NonEmpty(xs)| ==> AllSpace(NonEmpty(xs)[i]))
        <==> (forall i :: 0 <= i < |xs| ==> AllSpace(xs[i]))
  {
    if xs != [] {
      NonEmptyBlankIff(xs[1..]);
      var head: seq<string> := if xs[0] == [] then [] else [xs[0]];
      var rest := NonEmpty(xs[1..]);
      assert NonEmpty(xs) == head + rest;
      if forall i :: 0 <= i < |xs| ==> AllSpace(xs[i]) {
        assert forall i :: 0 <= i < |xs[1..]| ==> AllSpace(xs[1..][i]) by {
          forall i | 0 <= i < |xs[1..]| ensures AllSpace(xs[1..][i]) {
            assert xs[1..][i] == xs[i + 1];
          }
        }
        forall i | 0 <= i < |NonEmpty(xs)| ensures AllSpace(NonEmpty(xs)[i]) {
          if i >= |head| { assert NonEmpty(xs)[i] == rest[i - |head|]; }
        }
      }
      if forall i :: 0 <= i < |NonEmpty(xs)| ==> AllSpace(NonEmpty(xs)[i]) {
        forall i | 0 <= i < |rest| ensures AllSpace(rest[i]) {
          assert rest[i] == NonEmpty(xs)[|head| + i];
        }
        forall i | 0 <= i < |xs| ensures AllSpace(xs[i]) {
          if i > 0 { assert xs[i] == xs[1..][i - 1]; }
          else if xs[0] != [] { assert xs[0] == NonEmpty(xs)[0]; }
        }
      }
    }
  }

  /** Filtering distributes over concatenation: what survives of `xs + ys`
      is what survives of `xs`, followed by what survives of `ys`. */
  lemma {:induction false} NonEmptyAppend(xs: seq<string>, ys: seq<string>)
    ensures NonEmpty(xs + ys) == NonEmpty(xs) + NonEmpty(ys)
  {
    if xs != [] {
      NonEmptyAppend(xs[1..], ys);
      assert (xs + ys)[1..] == xs[1..] + ys;
    } else {
      assert xs + ys == ys;
    }
  }

  /** An empty slot contributes nothing to the filtered list. */
  lemma NonEmptySkipsEmpty(xs: seq<string>, e: string, ys: seq<string>)
    requires e == []
    ensures NonEmpty(xs + [e] + ys) == NonEmpty(xs) + NonEmpty(ys)
  {
    NonEmptyAppend(xs + [e], ys);
    NonEmptyAppend(xs, [e]);
    assert [e][1..] == [];
    assert NonEmpty([e]) == [];
    assert NonEmpty(xs + [e]) == NonEmpty(xs);
  }

  /** `xs.join(sep)`. */
  function Join(xs: seq<string>, sep: string): string {
    if xs == [] then []
    else if |xs| == 1 then xs[0]
    else xs[0] + sep + Join(xs[1..], sep)
  }

  lemma AllSpaceAppend(a: string, b: string)
    ensures AllSpace(a + b) <==> AllSpace(a) && AllSpace(b)
  {
    if AllSpace(a + b) {
      forall i | 0 <= i < |a| ensures IsSpace(a[i]) {
        assert a[i] == (a + b)[i];
      }
      forall i | 0 <= i < |b| ensures IsSpace(b[i]) {
        assert b[i] == (a + b)[|a| + i];
      }
    }
  }

  /** Joining with a blank separator gives a blank text exactly when every
      part is blank. */
  lemma {:induction false} JoinBlankIffPartsBlank(xs: seq<string>, sep: string)
    requires AllSpace(sep)
    ensures AllSpace(Join(xs, sep)) <==> forall i :: 0 <= i < |xs| ==> AllSpace(xs[i])
  {
    if |xs| > 1 {
      JoinBlankIffPartsBlank(xs[1..], sep);
      AllSpaceAppend(xs[0] + sep, Join(xs[1..], sep));
      AllSpaceAppend(xs[0], sep);
      if forall i :: 0 <= i < |xs[1..]| ==> AllSpace(xs[1..][i]) {
        if AllSpace(xs[0]) {
          forall i | 0 <= i < |xs| ensures AllSpace(xs[i]) {
            if i > 0 { assert xs[i] == xs[1..][i - 1]; }
          }
        }
      }
    }
  }

  /** The surviving fragments, joined by a blank line: the summary, or
      `NoSummaryGenerated` when it trims to nothing. The error comes exactly
      when every fragment is blank, so a whitespace-only fragment passes the
      filter and still cannot make a summary. */
  function Aggregate(fragments: seq<string>): (r: Result<string, AggregateError>)
    ensures r.Failure? <==> forall i :: 0 <= i < |fragments| ==> AllSpace(fragments[i])
    ensures r.Success? ==> r.value == Join(NonEmpty(fragments), Separator) && !AllSpace(r.value)
  {
    var summary := Join(NonEmpty(fragments), Separator);
    TrimEmptyIffAllSpace(summary);
    JoinBlankIffPartsBlank(NonEmpty(fragments), Separator);
    NonEmptyBlankIff(fragments);
    if Trim(summary) == [] then Failure(NoSummaryGenerated) else Success(summary)
  }
}
