/** Recognising a batch of SPiN sound files: every file whose path does not
    mention calibration is sent to the recogniser, and the responses are
    collected under the last component of each path. */
module Batch {
  import opened Wrappers

  /** Paths containing this marker are calibration recordings and are skipped. */
  const CalibrationMarker := "Calibration"

  /** Python's `sub in s` on strings: `sub` occurs as a contiguous run of `s`. */
  predicate Contains(s: string, sub: string)
    ensures sub == [] ==> Contains(s, sub)
    ensures Contains(s, sub) ==> |sub| <= |s|
  {
    assert sub == [] ==> OccursAt(s, sub, 0);
    exists i :: 0 <= i <= |s| && OccursAt(s, sub, i)
  }

  /** `sub` is the run of `s` that starts at index `i`. */
  predicate OccursAt(s: string, sub: string, i: int) {
    0 <= i && i + |sub| <= |s| && s[i..i + |sub|] == sub
  }

  /** Python's `'Calibration' in f`. */
  predicate IsCalibration(path: string)
    ensures IsCalibration(path) ==> |path| >= |CalibrationMarker|
  {
    Contains(path, CalibrationMarker)
  }

  /** Conversely, a calibration path is some text, the marker, then some
      more text. */
  lemma CalibrationHasMarker(path: string) returns (before: string, after: string)
    requires IsCalibration(path)
    ensures path == before + CalibrationMarker + after
  {
    var i :| 0 <= i <= |path| && OccursAt(path, CalibrationMarker, i);
    before, after := path[..i], path[i + |CalibrationMarker|..];
    assert path == path[..i] + path[i..i + |CalibrationMarker|] + path[i + |CalibrationMarker|..];
  }

  /** Any path with the marker somewhere in it, in a directory name or in
      the file name, is a calibration recording. */
  lemma MarkerMakesCalibration(before: string, after: string)
    ensures IsCalibration(before + CalibrationMarker + after)
  {
    var p := before + CalibrationMarker + after;
    assert p[|before|..|before| + |CalibrationMarker|] == CalibrationMarker;
    assert OccursAt(p, CalibrationMarker, |before|);
  }

  /** `os.path.basename` on a POSIX path: what follows the last `/`, or the
      whole path when it has none. */
  function Basename(path: string): (b: string)
    ensures '/' !in b
  {
    if path == [] then []
    else if path[|path| - 1] == '/' then []
    else Basename(path[..|path| - 1]) + [path[|path| - 1]]
  }

  /** The base name is a suffix of the path, and it is either the whole path
      or preceded by a `/`. */
  lemma {:induction false} BasenameIsLastComponent(path: string)
    ensures |Basename(path)| <= |path| && path[|path| - |Basename(path)|..] == Basename(path)
    ensures |Basename(path)| < |path| ==> path[|path| - |Basename(path)| - 1] == '/'
  {
    if path != [] && path[|path| - 1] != '/' {
      var init := path[..|path| - 1];
      var c := path[|path| - 1];
      var b := Basename(init);
      BasenameIsLastComponent(init);
      assert path == init + [c];
      assert Basename(path) == b + [c];
      SuffixSnoc(init, b, c);
    } else {
      assert Basename(path) == [];
    }
  }

  /** Extending a string and its `/`-delimited suffix by the same character. */
  lemma SuffixSnoc(s: string, b: string, c: char)
    requires |b| <= |s| && s[|s| - |b|..] == b
    requires |b| < |s| ==> s[|s| - |b| - 1] == '/'
    ensures var p, q := s + [c], b + [c];
            p[|p| - |q|..] == q && (|q| < |p| ==> p[|p| - |q| - 1] == '/')
  {
    var k := |s| - |b|;
    assert (s + [c])[k..] == s[k..] + [c];
    if |b| < |s| {
      assert (s + [c])[k - 1] == s[k - 1];
    }
  }

  /** `recognize_all_spin` as a function of the paths and the recogniser: the
      responses keyed by base name, or the first error the recogniser raised. */
  function RecognizeAll<R, E>(paths: seq<string>, recognize: string -> Result<R, E>)
    : Result<map<string, R>, E>
    decreases |paths|
  {
    if paths == [] then Success(map[])
    else
      match RecognizeAll(paths[..|paths| - 1], recognize)
      case Failure(e) => Failure(e)
      case Success(m) =>
        var f := paths[|paths| - 1];
        if IsCalibration(f) then Success(m)
        else
          match recognize(f)
          case Failure(e) => Failure(e)
          case Success(resp) => Success(m[Basename(f) := resp])
  }

  /** The loop of the source, with the recogniser as a parameter. */
  method RecognizeAllSpin<R, E>(allWavs: seq<string>, recognize: string -> Result<R, E>)
    returns (r: Result<map<string, R>, E>)
    ensures r == RecognizeAll(allWavs, recognize)
  {
    var allResults: map<string, R> := map[];
    var i := 0;
    while i < |allWavs|
      invariant 0 <= i <= |allWavs|
      invariant RecognizeAll(allWavs[..i], recognize) == Success(allResults)
    {
      assert allWavs[..i + 1][..i] == allWavs[..i];
      var f := allWavs[i];
      if IsCalibration(f) {
        i := i + 1;
        continue;
      }
      var prettyFile := Basename(f);
      var resp := recognize(f);
      if resp.Failure? {
        r := Failure(resp.error);
        RecognizeFailureStays(allWavs, recognize, i + 1);
        return;
      }
      allResults := allResults[prettyFile := resp.value];
      i := i + 1;
    }
    assert allWavs[..i] == allWavs;
    r := Success(allResults);
  }

  /** Once the recogniser has raised, later paths do not matter. */
  lemma {:induction false} RecognizeFailureStays<R, E>(paths: seq<string>, recognize: string -> Result<R, E>, n: nat)
    requires n <= |paths| && RecognizeAll(paths[..n], recognize).Failure?
    ensures RecognizeAll(paths, recognize) == RecognizeAll(paths[..n], recognize)
    decreases |paths| - n
  {
    if n < |paths| {
      assert paths[..n + 1][..n] == paths[..n];
      RecognizeFailureStays(paths, recognize, n + 1);
    } else {
      assert paths[..n] == paths;
    }
  }

  /** The batch succeeds exactly when the recogniser succeeds on every path
      that is not a calibration recording. */
  lemma {:induction false} RecognizeAllSucceedsIff<R, E>(paths: seq<string>, recognize: string -> Result<R, E>)
    ensures RecognizeAll(paths, recognize).Success? <==>
      forall i :: 0 <= i < |paths| && !IsCalibration(paths[i]) ==> recognize(paths[i]).Success?
  {
    if paths != [] {
      var init := paths[..|paths| - 1];
      RecognizeAllSucceedsIff(init, recognize);
      assert forall i :: 0 <= i < |init| ==> init[i] == paths[i];
    }
  }

  /** A failed batch reports the error of the first path, in order, on which
      the recogniser raised. */
  lemma {:induction false} RecognizeAllFailsAtFirst<R, E>(paths: seq<string>, recognize: string -> Result<R, E>)
    requires RecognizeAll(paths, recognize).Failure?
    ensures exists i :: 0 <= i < |paths| && !IsCalibration(paths[i])
                        && recognize(paths[i]) == Failure(RecognizeAll(paths, recognize).error)
                        && forall j :: 0 <= j < i && !IsCalibration(paths[j]) ==> recognize(paths[j]).Success?
  {
    var n := |paths| - 1;
    var init := paths[..n];
    assert forall j :: 0 <= j < |init| ==> init[j] == paths[j];
    if RecognizeAll(init, recognize).Failure? {
      RecognizeAllFailsAtFirst(init, recognize);
      var i :| 0 <= i < |init| && !IsCalibration(init[i])
        && recognize(init[i]) == Failure(RecognizeAll(init, recognize).error)
        && forall j :: 0 <= j < i && !IsCalibration(init[j]) ==> recognize(init[j]).Success?;
      assert paths[i] == init[i];
    } else {
      RecognizeAllSucceedsIff(init, recognize);
      assert paths[n] == paths[|paths| - 1];
    }
  }

  /** The keys of a successful batch are exactly the base names of the paths
      that are not calibration recordings. */
  lemma {:induction false} RecognizeAllKeys<R, E>(paths: seq<string>, recognize: string -> Result<R, E>, k: string)
    requires RecognizeAll(paths, recognize).Success?
    ensures k in RecognizeAll(paths, recognize).value <==>
      exists i :: 0 <= i < |paths| && !IsCalibration(paths[i]) && Basename(paths[i]) == k
  {
    if paths != [] {
      var init := paths[..|paths| - 1];
      RecognizeAllKeys(init, recognize, k);
      assert forall i :: 0 <= i < |init| ==> init[i] == paths[i];
      var last := |paths| - 1;
      if !IsCalibration(paths[last]) && Basename(paths[last]) == k {
        assert exists i :: 0 <= i < |paths| && !IsCalibration(paths[i]) && Basename(paths[i]) == k;
      }
    }
  }

  /** A key holds the response to the last non-calibration path with that
      base name: a later file in another directory replaces an earlier one. */
  lemma {:induction false} RecognizeAllLastWins<R, E>(paths: seq<string>, recognize: string -> Result<R, E>, i: nat)
    requires RecognizeAll(paths, recognize).Success?
    requires i < |paths| && !IsCalibration(paths[i])
    requires forall j :: i < j < |paths| && !IsCalibration(paths[j]) ==> Basename(paths[j]) != Basename(paths[i])
    ensures recognize(paths[i]).Success?
    ensures Basename(paths[i]) in RecognizeAll(paths, recognize).value
    ensures RecognizeAll(paths, recognize).value[Basename(paths[i])] == recognize(paths[i]).value
  {
    var n := |paths| - 1;
    var init := paths[..n];
    assert forall j :: 0 <= j < |init| ==> init[j] == paths[j];
    if i < n {
      RecognizeAllLastWins(init, recognize, i);
    }
  }

  /** A calibration recording changes nothing, wherever it stands. */
  lemma {:induction false} CalibrationIgnored<R, E>(before: seq<string>, p: string, after: seq<string>,
                                                    recognize: string -> Result<R, E>)
    requires IsCalibration(p)
    ensures RecognizeAll(before + [p] + after, recognize) == RecognizeAll(before + after, recognize)
    decreases |after|
  {
    var l := before + [p] + after;
    var m := before + after;
    if after == [] {
      assert l[..|l| - 1] == before;
      assert m == before;
    } else {
      var init := after[..|after| - 1];
      CalibrationIgnored(before, p, init, recognize);
      assert l[..|l| - 1] == before + [p] + init;
      assert m[..|m| - 1] == before + init;
      assert l[|l| - 1] == m[|m| - 1];
    }
  }

  /** The base name of a file name placed under a directory is the file name. */
  lemma {:induction false} BasenameOfJoined(dir: string, name: string)
    requires '/' !in name
    ensures Basename(dir + "/" + name) == name
    decreases |name|
  {
    var p := dir + "/" + name;
    if name == [] {
      assert p[|p| - 1] == '/';
    } else {
      var init := name[..|name| - 1];
      assert p[..|p| - 1] == dir + "/" + init;
      assert name[|name| - 1] in name;
      assert forall c :: c in init ==> c in name;
      BasenameOfJoined(dir, init);
      assert init + [name[|name| - 1]] == name;
    }
  }

  /** A path without a `/` is its own base name. */
  lemma {:induction false} BasenameOfPlain(name: string)
    requires '/' !in name
    ensures Basename(name) == name
    decreases |name|
  {
    if name != [] {
      var init := name[..|name| - 1];
      assert name[|name| - 1] in name;
      assert forall c :: c in init ==> c in name;
      BasenameOfPlain(init);
      assert init + [name[|name| - 1]] == name;
    }
  }
}
