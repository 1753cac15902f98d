/** Filling the input manifest: every file of a listing whose basename
    starts with a case's prefix is appended, in listing order, to that case's
    list of inputs. The cases are visited in manifest order and updated in
    place; a missing key stops the run at the case that lacks it. */
module Manifest {
  import opened Outcomes

  datatype Option<T> = None | Some(value: T)

  /** One case of the manifest: its name, its `"prefix"` and its `"inputs"`
      list, either of which the manifest may leave out, and its other keys
      (`"label"`, `"nprimary"`, ...), each with its JSON text. */
  datatype Case = Case(name: string, prefix: Option<string>, inputs: Option<seq<string>>,
                       others: map<string, string>)

  // ------------------------------------------------------------ basenames

  /** `os.path.basename`: the text after the last '/', or the whole path if
      it has none. */
  function Basename(path: string): string
  {
    if |path| == 0 || path[|path| - 1] == '/' then ""
    else Basename(path[..|path| - 1]) + [path[|path| - 1]]
  }

  /** The basename is the end of the path, holds no '/', and is preceded by
      a '/' unless it is the whole path. */
  lemma {:induction false} BasenameShape(path: string)
    ensures var b := Basename(path);
            && |b| <= |path| && b == path[|path| - |b|..]
            && '/' !in b
            && (|b| < |path| ==> path[|path| - |b| - 1] == '/')
  {
    if |path| > 0 && path[|path| - 1] != '/' {
      var init := path[..|path| - 1];
      BasenameShape(init);
      var b := Basename(path);
      assert b == Basename(init) + [path[|path| - 1]];
      assert path == init + [path[|path| - 1]];
    }
  }

  /** Appending a name to a directory and a separator gives back the name. */
  lemma {:induction false} BasenameOfJoin(dir: string, name: string)
    requires '/' !in name
    ensures Basename(dir + "/" + name) == name
  {
    var p := dir + "/" + name;
    if |name| > 0 {
      var init := name[..|name| - 1];
      BasenameOfJoin(dir, init);
      assert p[..|p| - 1] == dir + "/" + init;
      assert init + [name[|name| - 1]] == name;
    }
  }

  // ------------------------------------------------------------- matching

  /** The files whose basename starts with the prefix, in listing order. */
  function Matches(prefix: string, files: seq<string>): (m: seq<string>)
    ensures |m| <= |files|
  {
    if |files| == 0 then []
    else
      var init := Matches(prefix, files[..|files| - 1]);
      var f := files[|files| - 1];
      if prefix <= Basename(f) then init + [f] else init
  }

  /** A file is appended exactly when it is listed and its basename starts
      with the prefix. */
  lemma {:induction false} MatchesMembers(prefix: string, files: seq<string>)
    ensures forall f :: f in Matches(prefix, files) <==> f in files && prefix <= Basename(f)
  {
    if |files| > 0 {
      MatchesMembers(prefix, files[..|files| - 1]);
      assert files == files[..|files| - 1] + [files[|files| - 1]];
    }
  }

  /** Matching keeps the listing order: the matches of two listings one
      after the other are the matches of the first, then those of the second. */
  lemma {:induction false} MatchesConcat(prefix: string, xs: seq<string>, ys: seq<string>)
    ensures Matches(prefix, xs + ys) == Matches(prefix, xs) + Matches(prefix, ys)
  {
    if |ys| > 0 {
      MatchesConcat(prefix, xs, ys[..|ys| - 1]);
      assert (xs + ys)[..|xs + ys| - 1] == xs + ys[..|ys| - 1];
    } else {
      assert xs + ys == xs;
    }
  }

  /** The empty prefix matches every file. */
  lemma {:induction false} EmptyPrefixMatchesAll(files: seq<string>)
    ensures Matches("", files) == files
  {
    if |files| > 0 {
      EmptyPrefixMatchesAll(files[..|files| - 1]);
    }
  }

  // ---------------------------------------------------------- one case

  /** The effect of the inner loop on one case: `options["prefix"]` fails on
      a case without a prefix; `options["inputs"]` fails at the first match
      of a case without inputs; otherwise the matches are appended. */
  function FillCase(c: Case, files: seq<string>): (r: Result<Case>)
    ensures c.prefix.None? ==> r == Failure(KeyError("prefix"))
    ensures c.prefix.Some? && c.inputs.None? ==>
              (r.Failure? <==> |Matches(c.prefix.value, files)| > 0) && (r.Failure? ==> r.error == KeyError("inputs"))
    ensures c.prefix.Some? && c.inputs.Some? ==> r.Success?
    ensures r.Success? ==> r.value == c.(inputs := r.value.inputs)
    ensures r.Success? && c.inputs.Some? ==> r.value.inputs == Some(c.inputs.value + Matches(c.prefix.value, files))
    ensures r.Success? && c.inputs.None? ==> r.value == c
  {
    if c.prefix.None? then Failure(KeyError("prefix"))
    else
      var m := Matches(c.prefix.value, files);
      if |m| == 0 then
        assert c.inputs.Some? ==> c.inputs.value + m == c.inputs.value;
        Success(c)
      else if c.inputs.None? then Failure(KeyError("inputs"))
      else Success(c.(inputs := Some(c.inputs.value + m)))
  }

  /** Every input a case gains has a basename that starts with its prefix,
      and every listed file with such a basename is gained. */
  lemma FilledInputs(c: Case, files: seq<string>, f: string)
    requires c.inputs.Some? && FillCase(c, files).Success?
    ensures var added := FillCase(c, files).value.inputs.value[|c.inputs.value|..];
            f in added <==> f in files && c.prefix.value <= Basename(f)
  {
    MatchesMembers(c.prefix.value, files);
    var filled := FillCase(c, files).value.inputs.value;
    assert filled[|c.inputs.value|..] == Matches(c.prefix.value, files);
  }

  // ---------------------------------------------------------- all cases

  /** The manifest after the outer loop, and the error that stopped it, if
      any: the cases before the first failing one are filled, that case and
      the ones after it are left as they were. */
  function FillAll(cs: seq<Case>, files: seq<string>): (r: (seq<Case>, Option<Error>))
    ensures |r.0| == |cs|
  {
    if |cs| == 0 then ([], None)
    else
      match FillCase(cs[0], files)
      case Failure(err) => (cs, Some(err))
      case Success(c) =>
        var rest := FillAll(cs[1..], files);
        ([c] + rest.0, rest.1)
  }

  /** FillAll described case by case, given the index where it stops. */
  lemma {:induction false} FillAllAt(cs: seq<Case>, files: seq<string>, i: nat, result: seq<Case>)
    requires i <= |cs| && |result| == |cs|
    requires forall k :: 0 <= k < i ==> FillCase(cs[k], files).Success? && result[k] == FillCase(cs[k], files).value
    requires forall k :: i <= k < |cs| ==> result[k] == cs[k]
    requires i < |cs| ==> FillCase(cs[i], files).Failure?
    ensures FillAll(cs, files) == (result, if i == |cs| then None else Some(FillCase(cs[i], files).error))
  {
    if i == 0 {
      assert result == cs;
    } else {
      FillAllAt(cs[1..], files, i - 1, result[1..]);
      assert result == [result[0]] + result[1..];
    }
  }

  /** Without a failing case, each case is filled on its own: a file can go
      to several cases. */
  lemma {:induction false} FillAllIndependent(cs: seq<Case>, files: seq<string>)
    requires forall k :: 0 <= k < |cs| ==> FillCase(cs[k], files).Success?
    ensures FillAll(cs, files).1 == None
    ensures forall k :: 0 <= k < |cs| ==> FillAll(cs, files).0[k] == FillCase(cs[k], files).value
  {
    if |cs| > 0 {
      FillAllIndependent(cs[1..], files);
      assert forall k :: 1 <= k < |cs| ==> cs[1..][k - 1] == cs[k];
    }
  }

  /** The inner loop for case i: each listed file whose basename starts
      with the prefix is appended to the case's inputs as it is met. */
  method AppendMatches(cases: array<Case>, i: nat, files: seq<string>) returns (failure: Option<Error>)
    requires i < cases.Length && cases[i].prefix.Some?
    modifies cases
    ensures failure.None? <==> FillCase(old(cases[i]), files).Success?
    ensures failure.None? ==> cases[i] == FillCase(old(cases[i]), files).value
    ensures failure.Some? ==> failure.value == FillCase(old(cases[i]), files).error && cases[i] == old(cases[i])
    ensures forall k :: 0 <= k < cases.Length && k != i ==> cases[k] == old(cases[k])
  {
    var prefix := cases[i].prefix.value;
    ghost var c0 := cases[i];
    ghost var added: seq<string> := [];
    var j := 0;
    while j < |files|
      invariant 0 <= j <= |files|
      invariant added == Matches(prefix, files[..j])
      invariant added == [] ==> cases[i] == c0
      invariant added != [] ==> c0.inputs.Some? && cases[i] == c0.(inputs := Some(c0.inputs.value + added))
      invariant forall k :: 0 <= k < cases.Length && k != i ==> cases[k] == old(cases[k])
    {
      var file := files[j];
      assert files[..j + 1] == files[..j] + [file];
      if prefix <= Basename(file) {
        if cases[i].inputs.None? {
          MatchFound(prefix, files, j);
          return Some(KeyError("inputs"));
        }
        var inputs := cases[i].inputs.value + [file];
        assert inputs == c0.inputs.value + (added + [file]);
        cases[i] := cases[i].(inputs := Some(inputs));
        added := added + [file];
      }
      j := j + 1;
    }
    assert files[..j] == files;
    return None;
  }

  /** A listed file that matches makes the matches non-empty. */
  lemma MatchFound(prefix: string, files: seq<string>, j: nat)
    requires j < |files| && prefix <= Basename(files[j])
    ensures Matches(prefix, files) != []
  {
    MatchesConcat(prefix, files[..j + 1], files[j + 1..]);
    assert files[..j + 1] + files[j + 1..] == files;
    assert files[..j + 1][..j] == files[..j];
  }

  /** The nested loop of the script, run on the manifest in place. */
  method FillInputs(cases: array<Case>, files: seq<string>) returns (failure: Option<Error>)
    modifies cases
    ensures (cases[..], failure) == FillAll(old(cases[..]), files)
  {
    var i := 0;
    while i < cases.Length
      invariant 0 <= i <= cases.Length
      invariant forall k :: 0 <= k < i ==>
                  FillCase(old(cases[k]), files).Success? && cases[k] == FillCase(old(cases[k]), files).value
      invariant forall k :: i <= k < cases.Length ==> cases[k] == old(cases[k])
    {
      if cases[i].prefix.None? {
        FillAllAt(old(cases[..]), files, i, cases[..]);
        return Some(KeyError("prefix"));
      }
      var stop := AppendMatches(cases, i, files);
      if stop.Some? {
        FillAllAt(old(cases[..]), files, i, cases[..]);
        return stop;
      }
      i := i + 1;
    }
    FillAllAt(old(cases[..]), files, cases.Length, cases[..]);
    return None;
  }
}
