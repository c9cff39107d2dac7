/**
 The bullet segmentation of the generator form: `convertToBullets` turns a
 paragraph into a list of sentences, one per `.`-separated fragment, and the
 editable bullets box shows that list one bullet per line and re-segments the
 box's text after every edit.
 */
module Bullets {
  import opened Strings

  /** What every stored bullet looks like: a trimmed, non-empty fragment that
      holds no `.`, followed by exactly one `.`. */
  predicate IsBullet(b: string) {
    |b| >= 2 && b[|b| - 1] == '.' && '.' !in b[..|b| - 1] && IsTrimmed(b[..|b| - 1])
  }

  predicate AllBullets(bs: seq<string>) {
    forall k :: 0 <= k < |bs| ==> IsBullet(bs[k])
  }

  /** The trimmed form of a `.`-free fragment, if not empty, followed by `.`
      is a stored bullet. */
  lemma FragmentBullet(f: string)
    ensures '.' !in f && Trim(f) != "" ==> IsBullet(Trim(f) + ".")
  {
    if '.' !in f && Trim(f) != "" {
      TrimHasNo(f, '.');
      var b := Trim(f) + ".";
      assert b[..|b| - 1] == Trim(f);
    }
  }

  /** The chain `.map(trim).filter(length > 0).map(+ '.')` applied to the
      fragments of the split, fused into one pass. */
  function Bulletize(fragments: seq<string>): (bullets: seq<string>)
    ensures |bullets| <= |fragments|
  {
    if |fragments| == 0 then []
    else
      var t := Trim(fragments[0]);
      (if t != "" then [t + "."] else []) + Bulletize(fragments[1..])
  }

  /** `.`-free fragments give stored bullets only. */
  lemma {:induction false} BulletizeShape(fragments: seq<string>)
    requires NoneContains(fragments, '.')
    ensures AllBullets(Bulletize(fragments))
    decreases |fragments|
  {
    if |fragments| > 0 {
      FragmentBullet(fragments[0]);
      BulletizeShape(fragments[1..]);
    }
  }

  /** `convertToBullets(paragraph)`: split on `.`, trim, drop empties, append `.`. */
  function ConvertToBullets(paragraph: string): seq<string> {
    Bulletize(Split(paragraph, '.'))
  }

  /** Every element of the result is non-empty, ends with `.` and holds no other `.`. */
  lemma ConvertShape(paragraph: string)
    ensures AllBullets(ConvertToBullets(paragraph))
  {
    BulletizeShape(Split(paragraph, '.'));
  }

  /** A character absent from a string is absent from its trimmed form. */
  lemma TrimHasNo(s: string, c: char)
    requires c !in s
    ensures c !in Trim(s)
  {
    var i := SkipSpaces(s, 0);
    var j := SkipSpacesBack(s, i, |s|);
    assert Trim(s) == s[i..j];
    assert forall k :: 0 <= k < j - i ==> s[i..j][k] == s[i + k];
  }

  /** The bullets of two fragment lists, one after the other. */
  lemma {:induction false} BulletizeConcat(a: seq<string>, b: seq<string>)
    ensures Bulletize(a + b) == Bulletize(a) + Bulletize(b)
    decreases |a|
  {
    if |a| == 0 {
      assert a + b == b;
    } else {
      var t := Trim(a[0]);
      var h := if t != "" then [t + "."] else [];
      assert Bulletize(a + b) == h + Bulletize(a[1..] + b) by {
        assert (a + b)[0] == a[0];
        assert (a + b)[1..] == a[1..] + b;
      }
      BulletizeConcat(a[1..], b);
      assert h + (Bulletize(a[1..]) + Bulletize(b)) == (h + Bulletize(a[1..])) + Bulletize(b);
    }
  }

  /** Left-to-right order: the bullets of the text before a `.` come first,
      then those of the text after it. */
  lemma ConvertConcat(a: string, b: string)
    ensures ConvertToBullets(a + "." + b) == ConvertToBullets(a) + ConvertToBullets(b)
  {
    assert a + "." + b == a + ['.'] + b;
    SplitConcat(a, b, '.');
    BulletizeConcat(Split(a, '.'), Split(b, '.'));
  }

  /** Text without any `.` gives no bullet when it is all whitespace and
      otherwise the one bullet `trim(s) + "."`. */
  lemma ConvertWithoutPeriod(s: string)
    requires '.' !in s
    ensures ConvertToBullets(s) == if Trim(s) == "" then [] else [Trim(s) + "."]
  {
    assert Split(s, '.') == [s];
    assert [s][1..] == [];
  }

  lemma ConvertEmpty()
    ensures ConvertToBullets("") == []
  {
    assert AllSpace("");
    ConvertWithoutPeriod("");
  }

  lemma ConvertEdgeCases()
    ensures ConvertToBullets("") == []
    ensures ConvertToBullets(".") == []
    ensures ConvertToBullets("..") == []
  {
    ConvertEmpty();
    ConvertEmptyIff(".");
    ConvertEmptyIff("..");
  }

  /** Every character is a `.` or whitespace. */
  predicate PeriodsAndSpaces(s: string) {
    forall k :: 0 <= k < |s| ==> s[k] == '.' || IsSpace(s[k])
  }

  lemma PeriodsAndSpacesAround(s: string, i: nat)
    requires i < |s| && s[i] == '.'
    ensures PeriodsAndSpaces(s) <==> PeriodsAndSpaces(s[..i]) && PeriodsAndSpaces(s[i + 1..])
  {
    assert forall k :: 0 <= k < i ==> s[..i][k] == s[k];
    assert forall k :: i < k < |s| ==> s[i + 1..][k - i - 1] == s[k];
  }

  /** No bullet comes out exactly when the text holds nothing but whitespace and `.`. */
  lemma {:induction false} ConvertEmptyIff(s: string)
    ensures ConvertToBullets(s) == [] <==> PeriodsAndSpaces(s)
    decreases |s|
  {
    if '.' !in s {
      ConvertWithoutPeriod(s);
      assert PeriodsAndSpaces(s) <==> AllSpace(s);
    } else {
      var i := IndexOf(s, '.');
      var a, b := s[..i], s[i + 1..];
      assert s == a + "." + b;
      ConvertConcat(a, b);
      ConvertWithoutPeriod(a);
      assert PeriodsAndSpaces(a) <==> AllSpace(a);
      ConvertEmptyIff(b);
      PeriodsAndSpacesAround(s, i);
    }
  }

  /** A stored bullet segments to itself. */
  lemma ConvertBullet(b: string)
    requires IsBullet(b)
    ensures ConvertToBullets(b) == [b]
  {
    var t := b[..|b| - 1];
    assert b == t + "." + "";
    ConvertConcat(t, "");
    ConvertWithoutPeriod(t);
    TrimTrimmed(t);
    assert t + "." == b;
    ConvertEmpty();
  }

  /** `concat` of a bullet list: the bullets written one after the other. */
  function Concat(bs: seq<string>): string {
    if |bs| == 0 then "" else bs[0] + Concat(bs[1..])
  }

  /** A stored bullet at the front of a text is segmented off as it is. */
  lemma ConvertBulletThen(b: string, rest: string)
    requires IsBullet(b)
    ensures ConvertToBullets(b + rest) == [b] + ConvertToBullets(rest)
  {
    var t := b[..|b| - 1];
    assert b + rest == t + "." + rest;
    ConvertConcat(t, rest);
    ConvertBullet(b);
    ConvertWithoutPeriod(t);
  }

  /** Segmenting the concatenation of stored bullets gives back the list. */
  lemma {:induction false} ConvertConcatOfBullets(bs: seq<string>)
    requires AllBullets(bs)
    ensures ConvertToBullets(Concat(bs)) == bs
    decreases |bs|
  {
    if |bs| == 0 {
      ConvertEmpty();
    } else {
      ConvertBulletThen(bs[0], Concat(bs[1..]));
      ConvertConcatOfBullets(bs[1..]);
      assert bs == [bs[0]] + bs[1..];
    }
  }

  /** Segmentation is idempotent. */
  lemma ConvertIdempotent(s: string)
    ensures ConvertToBullets(Concat(ConvertToBullets(s))) == ConvertToBullets(s)
  {
    ConvertShape(s);
    ConvertConcatOfBullets(ConvertToBullets(s));
  }

  /** The text shown in the bullets box: `bullets.join('\n')`. */
  function BoxText(bs: seq<string>): string {
    JoinWith(bs, "\n")
  }

  /** What an edit of the box stores: `convertToBullets(text.replace(/\n/g, '.'))`. */
  function Resegment(text: string): seq<string> {
    ConvertToBullets(ReplaceChar(text, '\n', '.'))
  }

  /** A bullet without line breaks, then a line break, then more box text:
      the bullet comes first in the re-segmented list. */
  lemma ResegmentCons(b: string, rest: string)
    requires IsBullet(b) && '\n' !in b
    ensures Resegment(b + "\n" + rest) == [b] + Resegment(rest)
  {
    var r := ReplaceChar(rest, '\n', '.');
    ReplaceCharConcat(b + "\n", rest, '\n', '.');
    ReplaceCharConcat(b, "\n", '\n', '.');
    assert ReplaceChar(b, '\n', '.') == b;
    assert ReplaceChar(b + "\n" + rest, '\n', '.') == b + "." + r;
    ConvertConcat(b, r);
    ConvertBullet(b);
  }

  /** Showing a bullet list in the box and re-segmenting the unchanged box
      text gives back the list, provided no bullet holds a line break. */
  lemma {:induction false} ResegmentBoxText(bs: seq<string>)
    requires AllBullets(bs) && NoneContains(bs, '\n')
    ensures Resegment(BoxText(bs)) == bs
    decreases |bs|
  {
    if |bs| == 0 {
      ConvertEmpty();
    } else if |bs| == 1 {
      ResegmentSingle(bs[0]);
    } else {
      var b, rest := bs[0], bs[1..];
      assert AllBullets(rest) && NoneContains(rest, '\n') by {
        forall k | 0 <= k < |rest| ensures IsBullet(rest[k]) && '\n' !in rest[k] {
          assert rest[k] == bs[k + 1];
        }
      }
      assert BoxText(bs) == b + "\n" + BoxText(rest);
      ResegmentCons(b, BoxText(rest));
      ResegmentBoxText(rest);
      assert bs == [b] + rest;
    }
  }

  lemma ResegmentSingle(b: string)
    requires IsBullet(b) && '\n' !in b
    ensures Resegment(BoxText([b])) == [b]
  {
    assert BoxText([b]) == b;
    assert ReplaceChar(b, '\n', '.') == b;
    ConvertBullet(b);
  }

  /** Hence a segmented list without line breaks survives an edit that does not
      change the box text. */
  lemma ResegmentConverted(s: string)
    requires NoneContains(ConvertToBullets(s), '\n')
    ensures Resegment(BoxText(ConvertToBullets(s))) == ConvertToBullets(s)
  {
    ConvertShape(s);
    ResegmentBoxText(ConvertToBullets(s));
  }

  /** A line break inside a fragment does not split it... */
  lemma LineBreakStaysInsideBullet(x: string, y: string)
    requires x != "" && y != "" && IsTrimmed(x) && IsTrimmed(y) && '.' !in x && '.' !in y
    ensures ConvertToBullets(x + "\n" + y) == [x + "\n" + y + "."]
  {
    var s := x + "\n" + y;
    assert s[0] == x[0] && s[|s| - 1] == y[|y| - 1];
    ConvertWithoutPeriod(s);
    TrimTrimmed(s);
  }

  /** ...but the box turns that line break into a `.`, so the next edit
      splits the bullet in two. */
  lemma EditSplitsBulletAtLineBreak(x: string, y: string)
    requires x != "" && y != "" && IsTrimmed(x) && IsTrimmed(y) && '.' !in x && '.' !in y
    requires '\n' !in x && '\n' !in y
    ensures Resegment(BoxText([x + "\n" + y + "."])) == [x + ".", y + "."]
  {
    var b := x + "\n" + y + ".";
    assert BoxText([b]) == b;
    LineBreakBecomesPeriod(x, y);
    assert (x + ".")[..|x|] == x && (y + ".")[..|y|] == y;
    ConvertBulletThen(x + ".", y + ".");
    ConvertBullet(y + ".");
  }

  lemma LineBreakBecomesPeriod(x: string, y: string)
    requires '\n' !in x && '\n' !in y
    ensures ReplaceChar(x + "\n" + y + ".", '\n', '.') == (x + ".") + (y + ".")
  {
    var b := x + "\n" + y + ".";
    assert b == x + "\n" + (y + ".");
    ReplaceCharConcat(x + "\n", y + ".", '\n', '.');
    ReplaceCharConcat(x, "\n", '\n', '.');
    assert ReplaceChar(x, '\n', '.') == x;
    assert ReplaceChar(y + ".", '\n', '.') == y + ".";
  }
}
