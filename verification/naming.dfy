/** How a log file's name becomes the model name its records are filed
    under: the `_`-separated tokens of the base name, from token 1 on. */
module Naming {
  import opened Wrappers
  import opened Text

  /** The base name has too few `_`-separated tokens (`split('_')[1]` or
      `split('_')[2]` is out of range). */
  datatype NameError = TooFewTokens(baseName: string)

  /** The two data-set tags whose model names take a second token. */
  predicate IsDataset(tag: string) {
    tag == "cifar" || tag == "mnist"
  }

  /** The model name derived from a log file's path. */
  function ModelName(path: string): (r: Result<string, NameError>)
    ensures r.Failure? ==> r.error == TooFewTokens(BaseName(path))
    ensures r.Success? ==> '_' in BaseName(path)
  {
    var b := BaseName(path);
    var tokens := Split(b, '_');
    if |tokens| < 2 then Failure(TooFewTokens(b))
    else
      var tag1 := tokens[1];
      if IsDataset(tag1) then
        if |tokens| < 3 then Failure(TooFewTokens(b))
        else Success(tag1 + "_" + Before(tokens[2], '.'))
      else Success(tag1)
  }

  /** Reading the tokens: for a base name `t0_t1...`, token 1 is `t1`. */
  lemma SecondToken(t0: string, t1: string, rest: string)
    requires '_' !in t0 && '_' !in t1
    requires rest == [] || rest[0] == '_'
    ensures var tokens := Split(t0 + "_" + (t1 + rest), '_');
      |tokens| >= 2 && tokens[0] == t0 && tokens[1] == t1
  {
    SplitCons(t0, '_', t1 + rest);
    assert (t1 + rest)[..|t1|] == t1;
    BeforeUnique(t1 + rest, '_', t1);
  }

  /** A file whose base name is `<t0>_<t1>...`, `t1` not a data-set tag,
      is filed under `t1` verbatim, whatever follows it. */
  lemma ModelNameOther(path: string, t0: string, t1: string, rest: string)
    requires BaseName(path) == t0 + "_" + (t1 + rest)
    requires '_' !in t0 && '_' !in t1
    requires rest == [] || rest[0] == '_'
    requires !IsDataset(t1)
    ensures ModelName(path) == Success(t1)
  {
    SecondToken(t0, t1, rest);
  }

  /** Reading the tokens: for a base name `t0_t1_x`, token 2 is the text of
      `x` before its first `_`. */
  lemma ThirdToken(t0: string, t1: string, x: string)
    requires '_' !in t0 && '_' !in t1
    ensures var tokens := Split(t0 + "_" + t1 + "_" + x, '_');
      |tokens| >= 3 && tokens[1] == t1 && tokens[2] == Before(x, '_')
  {
    assert t0 + "_" + t1 + "_" + x == t0 + ['_'] + (t1 + ['_'] + x);
    SplitCons(t0, '_', t1 + ['_'] + x);
    SplitCons(t1, '_', x);
  }

  /** Cutting token 2 at `_` and then at `.` leaves the `t2` it starts with. */
  lemma CutTwice(t2: string, rest: string)
    requires '_' !in t2 && '.' !in t2
    requires rest == [] || rest[0] == '_' || rest[0] == '.'
    ensures Before(Before(t2 + rest, '_'), '.') == t2
  {
    var x := t2 + rest;
    var tok := Before(x, '_');
    assert forall j :: 0 <= j < |t2| ==> x[j] == t2[j];
    assert forall j :: 0 <= j < |tok| ==> x[j] == tok[j];
    assert |tok| >= |t2|;
    assert tok[..|t2|] == t2;
    BeforeUnique(tok, '.', t2);
  }

  /** A file whose base name is `<t0>_<cifar|mnist>_<t2>...` is filed under
      the tag, `_`, and token 2 cut at its first `.`. */
  lemma ModelNameDataset(path: string, t0: string, t1: string, t2: string, rest: string)
    requires BaseName(path) == t0 + "_" + t1 + "_" + (t2 + rest)
    requires '_' !in t0 && '_' !in t2 && '.' !in t2
    requires rest == [] || rest[0] == '_' || rest[0] == '.'
    requires IsDataset(t1)
    ensures ModelName(path) == Success(t1 + "_" + t2)
  {
    assert '_' !in t1;
    ThirdToken(t0, t1, t2 + rest);
    CutTwice(t2, rest);
  }

  /** A base name without any `_` has no token 1: the script stops. */
  lemma ModelNameNoToken1(path: string)
    requires '_' !in BaseName(path)
    ensures ModelName(path) == Failure(TooFewTokens(BaseName(path)))
  {
  }

  /** A base name `<t0>_<cifar|mnist>` with nothing after the tag has no
      token 2: the script stops. */
  lemma ModelNameNoToken2(path: string, t0: string, t1: string)
    requires BaseName(path) == t0 + "_" + t1
    requires '_' !in t0 && IsDataset(t1)
    ensures ModelName(path) == Failure(TooFewTokens(BaseName(path)))
  {
    assert Split(BaseName(path), '_') == [t0, t1] by {
      assert '_' !in t1;
      TwoTokens(t0, t1);
    }
  }

  lemma TwoTokens(t0: string, t1: string)
    requires '_' !in t0 && '_' !in t1
    ensures Split(t0 + "_" + t1, '_') == [t0, t1]
  {
    SplitCons(t0, '_', t1);
  }
}
