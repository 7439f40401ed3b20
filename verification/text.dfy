/** Character-level helpers the core uses: std::string::find, ::tolower and
    substring search. */
module Text {

  /** std::string::find(c, from): the first position at or after `from` holding
      `c`, or |s| when there is none (npos). */
  function IndexFrom(s: string, c: char, from: nat): (i: nat)
    requires from <= |s|
    ensures from <= i <= |s|
    ensures i < |s| ==> s[i] == c
    decreases |s| - from
  {
    if from == |s| then from
    else if s[from] == c then from
    else IndexFrom(s, c, from + 1)
  }

  /** std::string::find(c). */
  function IndexOf(s: string, c: char): (i: nat)
    ensures i <= |s|
    ensures i < |s| ==> s[i] == c
  {
    IndexFrom(s, c, 0)
  }

  /** Nothing between `from` and the found position is `c`. */
  lemma {:induction false} IndexFromFirst(s: string, c: char, from: nat)
    requires from <= |s|
    ensures forall j | from <= j < IndexFrom(s, c, from) :: s[j] != c
    decreases |s| - from
  {
    if from < |s| && s[from] != c {
      IndexFromFirst(s, c, from + 1);
    }
  }

  lemma IndexOfFirst(s: string, c: char)
    ensures forall j | 0 <= j < IndexOf(s, c) :: s[j] != c
  {
    IndexFromFirst(s, c, 0);
  }

  /** A stretch free of `c` can be skipped before searching. */
  lemma {:induction false} IndexFromSkip(s: string, c: char, from: nat, k: nat)
    requires from <= k <= |s|
    requires forall j | from <= j < k :: s[j] != c
    ensures IndexFrom(s, c, from) == IndexFrom(s, c, k)
    decreases k - from
  {
    if from < k {
      IndexFromSkip(s, c, from + 1, k);
    }
  }

  /** Number of occurrences of `c` at or after `from`. */
  function CountFrom(s: string, c: char, from: nat): nat
    requires from <= |s|
    decreases |s| - from
  {
    if from == |s| then 0
    else (if s[from] == c then 1 else 0) + CountFrom(s, c, from + 1)
  }

  /** Number of occurrences of `c` in `s`. */
  function Count(s: string, c: char): nat
  {
    CountFrom(s, c, 0)
  }

  /** A stretch free of `c` adds nothing to the count. */
  lemma {:induction false} CountFromSkip(s: string, c: char, from: nat, k: nat)
    requires from <= k <= |s|
    requires forall j | from <= j < k :: s[j] != c
    ensures CountFrom(s, c, from) == CountFrom(s, c, k)
    decreases k - from
  {
    if from < k {
      CountFromSkip(s, c, from + 1, k);
    }
  }

  /** ::tolower in the "C" locale: only 'A'..'Z' change. */
  function LowerChar(c: char): (d: char)
    ensures 'A' <= c <= 'Z' ==> 'a' <= d <= 'z'
    ensures !('A' <= c <= 'Z') ==> d == c
  {
    if 'A' <= c <= 'Z' then (c as int + 32) as char else c
  }

  function Lower(s: string): (r: string)
    ensures |r| == |s|
    ensures forall i | 0 <= i < |s| :: r[i] == LowerChar(s[i])
  {
    if |s| == 0 then [] else [LowerChar(s[0])] + Lower(s[1..])
  }

  /** `needle` sits in `hay` starting at position `i`. */
  predicate OccursAt(hay: string, needle: string, i: int)
  {
    0 <= i && i + |needle| <= |hay| && hay[i..i + |needle|] == needle
  }

  /** `hay.find(needle) != npos`, as a scan from the left. */
  predicate Contains(hay: string, needle: string)
  {
    needle <= hay || (|hay| > 0 && Contains(hay[1..], needle))
  }

  lemma OccursAtStart(hay: string, needle: string)
    ensures OccursAt(hay, needle, 0) <==> needle <= hay
  {
  }

  lemma OccursShift(hay: string, needle: string, i: int)
    requires |hay| > 0 && i > 0
    ensures OccursAt(hay, needle, i) <==> OccursAt(hay[1..], needle, i - 1)
  {
    if i + |needle| <= |hay| {
      assert hay[1..][i - 1..i - 1 + |needle|] == hay[i..i + |needle|];
    }
  }

  /** The scan finds the needle exactly when it occurs at some position. */
  lemma {:induction false} ContainsIffOccurs(hay: string, needle: string)
    ensures Contains(hay, needle) <==> exists i :: OccursAt(hay, needle, i)
  {
    OccursAtStart(hay, needle);
    if needle <= hay {
      assert OccursAt(hay, needle, 0);
    } else if |hay| > 0 {
      ContainsIffOccurs(hay[1..], needle);
      if Contains(hay[1..], needle) {
        var i :| OccursAt(hay[1..], needle, i);
        OccursShift(hay, needle, i + 1);
      } else {
        forall i | i > 0 ensures !OccursAt(hay, needle, i) {
          OccursShift(hay, needle, i);
        }
      }
    }
  }

  /** The empty query occurs in every text. */
  lemma EmptyNeedleAlwaysContained(hay: string)
    ensures Contains(hay, "")
  {
  }

  /** The first comma of `field,rest` is the one after a comma-free `field`. */
  lemma FirstCommaAfter(field: string, rest: string)
    requires ',' !in field
    ensures IndexOf(field + "," + rest, ',') == |field|
  {
    var s := field + "," + rest;
    forall j | 0 <= j < |field| ensures s[j] != ',' {
      assert s[j] == field[j];
    }
    IndexFromSkip(s, ',', 0, |field|);
  }
}
