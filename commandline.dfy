/** The command line of `facecloud.py` (its `__main__` block): `infile outfile` followed by
    any number of `key=value` options, which become keyword arguments of the word cloud. */
module CommandLine {
  import opened Wrappers
  import opened PyStr

  /** `minArgs`: the script name, the input file and the output file. */
  const MinArgs: nat := 3

  datatype CliError =
    | Usage                          // too few arguments: the usage text and exit status 1
    | MalformedOption(token: string) // `k,v = r.split('=')` does not unpack

  /** What the script goes on to call `makeWordCloud` with. */
  datatype Invocation = Invocation(infile: string, outfile: string, options: map<string, string>)

  /** `k,v = r.split('=')`: unpacking succeeds when the split gives exactly two parts. */
  function ParseOption(token: string): Option<(string, string)> {
    var parts := Split(token, '=');
    if |parts| == 2 then Some((parts[0], parts[1])) else None
  }

  /** A token gives a key and a value exactly when it holds exactly one `=`; the key is the
      text before it and the value the text after it. */
  lemma ParseOptionSpec(token: string)
    ensures ParseOption(token).Some? <==> multiset(token)['='] == 1
    ensures ParseOption(token).Some? ==>
      var kv := ParseOption(token).value;
      kv.0 + "=" + kv.1 == token && '=' !in kv.0 && '=' !in kv.1
  {
    var parts := Split(token, '=');
    SplitCount(token, '=');
    if |parts| == 2 {
      assert parts[1..] == [parts[1]];
    }
  }

  /** Every token of `tokens` unpacks into a key and a value. */
  predicate AllOptions(tokens: seq<string>) {
    forall i :: 0 <= i < |tokens| ==> ParseOption(tokens[i]).Some?
  }

  /** The key and value pairs of tokens that all unpack, in order. */
  function Pairs(tokens: seq<string>): (pairs: seq<(string, string)>)
    requires AllOptions(tokens)
    ensures |pairs| == |tokens|
    ensures forall i :: 0 <= i < |tokens| ==> ParseOption(tokens[i]) == Some(pairs[i])
  {
    seq(|tokens|, i requires 0 <= i < |tokens| => ParseOption(tokens[i]).value)
  }

  /** The keyword arguments after storing the pairs in order: `kwargs[k] = v`. */
  function Store(pairs: seq<(string, string)>): map<string, string> {
    if pairs == [] then map[]
    else
      var kv := pairs[|pairs| - 1];
      Store(pairs[..|pairs| - 1])[kv.0 := kv.1]
  }

  /** The keys of the keyword arguments are exactly the keys of the pairs. */
  lemma {:induction false} StoreKeys(pairs: seq<(string, string)>, k: string)
    ensures k in Store(pairs) <==> exists i :: 0 <= i < |pairs| && pairs[i].0 == k
  {
    if pairs != [] {
      var n := |pairs| - 1;
      var front := pairs[..n];
      StoreKeys(front, k);
      if exists i :: 0 <= i < |front| && front[i].0 == k {
        var i :| 0 <= i < |front| && front[i].0 == k;
        assert pairs[i] == front[i];
      }
      if exists i :: 0 <= i < |pairs| && pairs[i].0 == k {
        var i :| 0 <= i < |pairs| && pairs[i].0 == k;
        if i < n {
          assert front[i] == pairs[i];
        }
      }
    }
  }

  /** A key given more than once keeps the value of its last pair. */
  lemma {:induction false} StoreLastWins(pairs: seq<(string, string)>, i: nat)
    requires i < |pairs|
    requires forall j :: i < j < |pairs| ==> pairs[j].0 != pairs[i].0
    ensures pairs[i].0 in Store(pairs) && Store(pairs)[pairs[i].0] == pairs[i].1
  {
    var n := |pairs| - 1;
    if i < n {
      var front := pairs[..n];
      assert front[i] == pairs[i];
      forall j | i < j < |front|
        ensures front[j].0 != front[i].0
      {
        assert front[j] == pairs[j];
      }
      StoreLastWins(front, i);
    }
  }

  /** One more token that unpacks extends the pairs by its pair. */
  lemma PairsSnoc(tokens: seq<string>, i: nat)
    requires i < |tokens| && AllOptions(tokens[..i]) && ParseOption(tokens[i]).Some?
    ensures AllOptions(tokens[..i + 1])
    ensures Pairs(tokens[..i + 1]) == Pairs(tokens[..i]) + [ParseOption(tokens[i]).value]
  {
    assert forall j :: 0 <= j < i ==> tokens[..i + 1][j] == tokens[..i][j];
    assert tokens[..i + 1][i] == tokens[i];
  }

  /** A token that does not unpack stops the options from all unpacking. */
  lemma Malformed(tokens: seq<string>, i: nat)
    requires i < |tokens| && ParseOption(tokens[i]).None?
    ensures !AllOptions(tokens)
  {
  }

  lemma StoreSnoc(pairs: seq<(string, string)>, kv: (string, string))
    ensures Store(pairs + [kv]) == Store(pairs)[kv.0 := kv.1]
  {
    assert (pairs + [kv])[..|pairs|] == pairs;
  }

  /** The `__main__` block up to the call of `makeWordCloud`: with fewer than three
      arguments it stops with the usage text; otherwise it stores the options in order and
      stops at the first token that does not unpack. */
  method ParseCommandLine(argv: seq<string>) returns (r: Result<Invocation, CliError>)
    ensures |argv| < MinArgs <==> r == Failure(Usage)
    ensures r.Success? <==> |argv| >= MinArgs && AllOptions(argv[MinArgs..])
    ensures r.Success? ==>
      r.value == Invocation(argv[1], argv[2], Store(Pairs(argv[MinArgs..])))
    ensures r.Failure? && r.error.MalformedOption? ==>
      exists k :: MinArgs <= k < |argv| && r.error.token == argv[k]
        && ParseOption(argv[k]).None? && AllOptions(argv[MinArgs..k])
  {
    if |argv| < MinArgs {
      return Failure(Usage);
    }
    var infile, outfile := argv[1], argv[2];
    var kwargs: map<string, string> := map[];
    var remaining := argv[MinArgs..];
    for i := 0 to |remaining|
      invariant AllOptions(remaining[..i])
      invariant kwargs == Store(Pairs(remaining[..i]))
    {
      var kv := ParseOption(remaining[i]);
      if kv.None? {
        Malformed(remaining, i);
        assert remaining[..i] == argv[MinArgs..MinArgs + i];
        return Failure(MalformedOption(remaining[i]));
      }
      PairsSnoc(remaining, i);
      StoreSnoc(Pairs(remaining[..i]), kv.value);
      kwargs := kwargs[kv.value.0 := kv.value.1];
    }
    assert remaining[..|remaining|] == remaining;
    return Success(Invocation(infile, outfile, kwargs));
  }
}
