/**
 * Marker names of the form `Level<digits>_<condition>[_point...]` (extract_data.py,
 * `get_condition` and the level number read for each block member): the `Level<digits>_`
 * prefix, the level number it carries, and the condition name left after the prefix and
 * every `_point` are removed.
 */
module Conditions {
  import opened Wrappers
  import opened Text

  /** The end of the run of ASCII digits that begins at `i`. */
  function DigitRun(s: string, i: nat): (j: nat)
    requires i <= |s|
    ensures i <= j <= |s|
    ensures forall k :: i <= k < j ==> IsDigit(s[k])
    ensures j < |s| ==> !IsDigit(s[j])
    decreases |s| - i
  {
    if i == |s| || !IsDigit(s[i]) then i else DigitRun(s, i + 1)
  }

  lemma {:induction false} DigitRunIs(s: string, i: nat, j: nat)
    requires i <= j <= |s|
    requires forall k :: i <= k < j ==> IsDigit(s[k])
    requires j < |s| ==> !IsDigit(s[j])
    ensures DigitRun(s, i) == j
    decreases j - i
  {
    if i < j {
      DigitRunIs(s, i + 1, j);
    }
  }

  /**
   * `re.match(r'Level\d+_', name)`: the length of the matched prefix, or `None`.
   * The greedy `\d+` takes the whole digit run; giving digits back only puts a digit,
   * never `_`, after the run, so the match exists exactly when `_` follows the whole run.
   */
  function LevelPrefix(name: string): (r: Option<nat>)
    ensures r.Some? ==> 7 <= r.value <= |name| && name[r.value - 1] == '_'
    ensures r.Some? ==> name[..5] == "Level" && AllDigits(name[5..r.value - 1])
  {
    if !("Level" <= name) then None
    else
      var j := DigitRun(name, 5);
      if j > 5 && j < |name| && name[j] == '_' then
        assert AllDigits(name[5..j]) by {
          forall k | 0 <= k < j - 5 ensures IsDigit(name[5..j][k]) {
            assert name[5..j][k] == name[5 + k];
          }
        }
        Some(j + 1)
      else None
  }

  /** `int(re.match(r'Level(\d+)_', name).group(1))`: the level number, `None` where the match fails. */
  function LevelNumber(name: string): (r: Option<nat>)
    ensures r.Some? <==> LevelPrefix(name).Some?
  {
    match LevelPrefix(name)
    case None => None
    case Some(p) => Some(DigitsValue(name[5..p - 1]))
  }

  /** `s.replace('_point', '')`: occurrences removed left to right, the text after each one scanned afresh. */
  function RemovePoint(s: string): (r: string)
    ensures |r| <= |s|
    decreases |s|
  {
    if "_point" <= s then RemovePoint(s[6..])
    else if s == [] then []
    else [s[0]] + RemovePoint(s[1..])
  }

  /** `get_condition(name)`: the `Level<digits>_` prefix removed if present, then every `_point`. */
  function GetCondition(name: string): (r: string)
    ensures |r| <= |name|
    ensures LevelPrefix(name).Some? ==> |r| <= |name| - 7
  {
    var rest := match LevelPrefix(name) case None => name case Some(p) => name[p..];
    RemovePoint(rest)
  }

  /** A name that is `Level`, a digit run, `_` and a rest has exactly that prefix, and its level is the digits' value. */
  lemma LevelPrefixOf(ds: string, rest: string)
    requires |ds| > 0 && AllDigits(ds)
    ensures var name := "Level" + ds + "_" + rest;
      && LevelPrefix(name) == Some(6 + |ds|)
      && LevelNumber(name) == Some(DigitsValue(ds))
      && GetCondition(name) == RemovePoint(rest)
  {
    var name := "Level" + ds + "_" + rest;
    var j := 5 + |ds|;
    assert "Level" <= name;
    assert name[j] == '_';
    assert forall k :: 5 <= k < j ==> name[k] == ds[k - 5];
    DigitRunIs(name, 5, j);
    assert name[5..j] == ds;
    assert name[j + 1..] == rest;
  }

  /** Without the prefix, `get_condition` only removes `_point`. */
  lemma NoPrefixCondition(name: string)
    requires LevelPrefix(name).None?
    ensures GetCondition(name) == RemovePoint(name)
    ensures forall ds: string, rest: string :: |ds| > 0 && AllDigits(ds) ==> name != "Level" + ds + "_" + rest
  {
    forall ds: string, rest: string | |ds| > 0 && AllDigits(ds)
      ensures name != "Level" + ds + "_" + rest
    {
      LevelPrefixOf(ds, rest);
    }
  }

  /** `_point` starts at position `i` of `s`. */
  predicate PointAt(s: string, i: nat)
    requires i <= |s|
  {
    "_point" <= s[i..]
  }

  /** Text with no `_point` in it is left as it is. */
  lemma {:induction false} RemovePointNone(s: string)
    requires forall i :: 0 <= i <= |s| ==> !PointAt(s, i)
    ensures RemovePoint(s) == s
    decreases |s|
  {
    assert s[0..] == s && !PointAt(s, 0);
    if s != [] {
      forall i | 0 <= i <= |s[1..]| ensures !PointAt(s[1..], i) {
        assert s[1..][i..] == s[1 + i..];
        assert !PointAt(s, 1 + i);
      }
      RemovePointNone(s[1..]);
      assert [s[0]] + s[1..] == s;
    }
  }

  /** The leftmost `_point` goes, the text before it stays, and the text after it is rewritten afresh. */
  lemma {:induction false} RemovePointFirst(s: string, i: nat)
    requires i + 6 <= |s| && PointAt(s, i)
    requires forall k :: 0 <= k < i ==> !PointAt(s, k)
    ensures RemovePoint(s) == s[..i] + RemovePoint(s[i + 6..])
    decreases i
  {
    if i == 0 {
      assert s[0..] == s;
    } else {
      assert s[0..] == s && !PointAt(s, 0);
      assert s[1..][i - 1..] == s[i..];
      forall k | 0 <= k < i - 1 ensures !PointAt(s[1..], k) {
        assert s[1..][k..] == s[1 + k..];
        assert !PointAt(s, 1 + k);
      }
      RemovePointFirst(s[1..], i - 1);
      assert s[1..][i - 1 + 6..] == s[i + 6..];
      assert [s[0]] + s[1..][..i - 1] == s[..i];
    }
  }

  /** A leader's name: the prefix is `Level00_`, its level is 0 and its condition is the rest, `_point` removed. */
  lemma LeaderName(name: string)
    requires "Level00_" <= name
    ensures LevelPrefix(name) == Some(8) && LevelNumber(name) == Some(0)
    ensures GetCondition(name) == RemovePoint(name[8..])
  {
    LevelPrefixOf("00", name[8..]);
    assert name == "Level" + "00" + "_" + name[8..];
  }

  /** Text without `_` before a `_point`: the text stays, the `_point` goes, and the rest is rewritten. */
  lemma PointAfterWord(x: string, y: string)
    requires '_' !in x
    ensures RemovePoint(x + "_point" + y) == x + RemovePoint(y)
  {
    var s := x + "_point" + y;
    var i := |x|;
    forall k | 0 <= k < i ensures !PointAt(s, k) {
      assert s[k..][0] == x[k];
    }
    assert s[i..][..6] == "_point";
    RemovePointFirst(s, i);
    assert s[..i] == x && s[i + 6..] == y;
  }

  /**
   * The names the experiment uses: `Level<digits>_<word>_point<tail>` with no `_` in the word and
   * no `_point` in the tail has condition `<word><tail>` (`Level03_NE_point_empty` gives
   * `NE_empty`, `Level01_ES_point` gives `ES`).
   */
  lemma PointNameCondition(ds: string, word: string, tail: string)
    requires |ds| > 0 && AllDigits(ds) && '_' !in word
    requires forall i :: 0 <= i <= |tail| ==> !PointAt(tail, i)
    ensures GetCondition("Level" + ds + "_" + (word + "_point" + tail)) == word + tail
    ensures LevelNumber("Level" + ds + "_" + (word + "_point" + tail)) == Some(DigitsValue(ds))
  {
    LevelPrefixOf(ds, word + "_point" + tail);
    PointAfterWord(word, tail);
    RemovePointNone(tail);
  }
}
