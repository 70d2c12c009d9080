/** The pure string helpers of the upload server: the data-URI prefix, the file name
    built from the capture time, the `.jpg` filter and the gallery's URL paths. */
module Names {
  import opened Common
  import opened Order

  /** The prefix that the upload handler strips from `photoData`. */
  const DataUriPrefix := "data:image/jpeg;base64,"

  /** The regular-expression replace anchored at the start of the payload, without the
      global flag: at most one leading copy of the prefix is removed. */
  function StripPrefix(payload: string): (r: string)
    ensures DataUriPrefix <= payload ==> DataUriPrefix + r == payload
    ensures !(DataUriPrefix <= payload) ==> r == payload
  {
    if DataUriPrefix <= payload then payload[|DataUriPrefix|..] else payload
  }

  /** Stripping undoes prepending the prefix, and only one copy of it. */
  lemma StripPrefixInverse(body: string)
    ensures StripPrefix(DataUriPrefix + body) == body
    ensures StripPrefix(DataUriPrefix + DataUriPrefix + body) == DataUriPrefix + body
  {
    assert DataUriPrefix <= DataUriPrefix + body;
    assert DataUriPrefix <= DataUriPrefix + DataUriPrefix + body;
    assert DataUriPrefix + DataUriPrefix + body == DataUriPrefix + (DataUriPrefix + body);
  }

  predicate IsDigit(c: char)
  {
    '0' <= c <= '9'
  }

  function DigitChar(d: nat): (c: char)
    requires d < 10
    ensures IsDigit(c)
  {
    (48 + d) as char
  }

  function DigitValue(c: char): (d: nat)
    requires IsDigit(c)
    ensures d < 10
  {
    (c as int) - 48
  }

  predicate AllDigits(s: string)
  {
    forall i :: 0 <= i < |s| ==> IsDigit(s[i])
  }

  /** How a template literal prints a non-negative integer: decimal digits, no leading zero. */
  function Decimal(n: nat): (r: string)
    ensures |r| >= 1 && AllDigits(r)
    ensures r[0] == '0' ==> n == 0
    ensures n < 10 <==> |r| == 1
  {
    if n < 10 then [DigitChar(n)] else Decimal(n / 10) + [DigitChar(n % 10)]
  }

  /** The number a string of decimal digits denotes. */
  function DigitsValue(s: string): nat
    requires AllDigits(s)
  {
    if s == [] then 0 else 10 * DigitsValue(s[..|s| - 1]) + DigitValue(s[|s| - 1])
  }

  lemma {:induction false} DecimalRoundTrip(n: nat)
    ensures DigitsValue(Decimal(n)) == n
  {
    if n >= 10 {
      var r := Decimal(n);
      assert r[..|r| - 1] == Decimal(n / 10);
      DecimalRoundTrip(n / 10);
    }
  }

  /** For digit strings of equal length, the name order is the numeric order. */
  lemma {:induction false} DigitsOrder(x: string, y: string)
    requires AllDigits(x) && AllDigits(y) && |x| == |y|
    ensures Below(x, y) <==> DigitsValue(x) < DigitsValue(y)
    decreases |x|
  {
    if x != [] {
      var n := |x| - 1;
      var x', y' := x[..n], y[..n];
      assert x == x' + [x[n]] && y == y' + [y[n]];
      BelowAppend(x', [x[n]], y', [y[n]]);
      DigitsOrder(x', y');
      DigitsOrder(y', x');
      if x' != y' {
        BelowTotal(x', y');
      }
    }
  }

  const FilePrefix := "foto_"
  const JpgSuffix := ".jpg"

  /** `String.prototype.endsWith(".jpg")`. */
  predicate IsJpg(name: string)
  {
    |name| >= |JpgSuffix| && name[|name| - |JpgSuffix|..] == JpgSuffix
  }

  /** The name under which an upload received at `now` (milliseconds since the epoch)
      is stored. */
  function FileName(now: nat): (r: string)
    ensures IsJpg(r) && FilePrefix <= r
    ensures |r| == |FilePrefix| + |Decimal(now)| + |JpgSuffix|
    ensures r[|FilePrefix|..|r| - |JpgSuffix|] == Decimal(now)
  {
    FilePrefix + Decimal(now) + JpgSuffix
  }

  /** Distinct capture times give distinct file names. */
  lemma FileNameInjective(a: nat, b: nat)
    requires a != b
    ensures FileName(a) != FileName(b)
  {
    if FileName(a) == FileName(b) {
      DecimalRoundTrip(a);
      DecimalRoundTrip(b);
      assert false;
    }
  }

  /** Sorting file names sorts by capture time as long as the times have equally many
      digits (13 digits for every millisecond from September 2001 to November 2286). */
  lemma NameOrderFollowsTime(a: nat, b: nat)
    requires |Decimal(a)| == |Decimal(b)|
    ensures Below(FileName(a), FileName(b)) <==> a < b
  {
    BelowAppend(FilePrefix, Decimal(a) + JpgSuffix, FilePrefix, Decimal(b) + JpgSuffix);
    BelowAppend(Decimal(a), JpgSuffix, Decimal(b), JpgSuffix);
    BelowIrreflexive(JpgSuffix);
    DigitsOrder(Decimal(a), Decimal(b));
    DecimalRoundTrip(a);
    DecimalRoundTrip(b);
    assert FilePrefix + Decimal(a) + JpgSuffix == FilePrefix + (Decimal(a) + JpgSuffix);
    assert FilePrefix + Decimal(b) + JpgSuffix == FilePrefix + (Decimal(b) + JpgSuffix);
  }

  lemma DecimalOf1000And999()
    ensures Decimal(1000)[0] == '1' && Decimal(999)[0] == '9'
  {
    assert Decimal(1) == [DigitChar(1)];
    assert Decimal(10) == Decimal(1) + [DigitChar(0)];
    assert Decimal(100) == Decimal(10) + [DigitChar(0)];
    assert Decimal(1000) == Decimal(100) + [DigitChar(0)];
    assert Decimal(9) == [DigitChar(9)];
    assert Decimal(99) == Decimal(9) + [DigitChar(9)];
    assert Decimal(999) == Decimal(99) + [DigitChar(9)];
  }

  /** Across a change in the number of digits the name order and the time order part:
      the later upload at 1000 ms sorts before the one at 999 ms. */
  lemma NameOrderAcrossDigitCounts()
    ensures Below(FileName(1000), FileName(999))
  {
    DecimalOf1000And999();
    var later, earlier := Decimal(1000) + JpgSuffix, Decimal(999) + JpgSuffix;
    assert later[0] == '1' && earlier[0] == '9';
    assert Below(later, earlier);
    BelowAppend(FilePrefix, later, FilePrefix, earlier);
    assert FileName(1000) == FilePrefix + later && FileName(999) == FilePrefix + earlier;
  }

  /** `.filter(f => f.endsWith('.jpg'))`. */
  function FilterJpg(names: seq<string>): (r: seq<string>)
    ensures forall x :: x in r <==> x in names && IsJpg(x)
    ensures Distinct(names) ==> Distinct(r)
  {
    if names == [] then []
    else
      assert Distinct(names) ==> Distinct(names[1..]) && names[0] !in names[1..];
      (if IsJpg(names[0]) then [names[0]] else []) + FilterJpg(names[1..])
  }

  /** The filter keeps the listing's order: filtering two parts filters the whole. */
  lemma {:induction false} FilterJpgAppend(a: seq<string>, b: seq<string>)
    ensures FilterJpg(a + b) == FilterJpg(a) + FilterJpg(b)
  {
    if a == [] {
      assert a + b == b;
    } else {
      assert (a + b)[1..] == a[1..] + b;
      FilterJpgAppend(a[1..], b);
    }
  }

  /** The URL prefix under which the image directory is served. */
  const StaticPrefix := "/Uploads/"

  /** `.filter(f => f.endsWith('.jpg')).map(f => '/Uploads/' + f)` over a directory listing. */
  function GalleryPaths(listing: seq<string>): (r: seq<string>)
  {
    if listing == [] then []
    else (if IsJpg(listing[0]) then [StaticPrefix + listing[0]] else []) + GalleryPaths(listing[1..])
  }

  /** The gallery shows each `.jpg` entry once, in listing order, under the static prefix,
      and nothing else. */
  lemma {:induction false} GalleryPathsAreJpgs(listing: seq<string>)
    ensures |GalleryPaths(listing)| == |FilterJpg(listing)|
    ensures forall i :: 0 <= i < |GalleryPaths(listing)| ==>
      GalleryPaths(listing)[i] == StaticPrefix + FilterJpg(listing)[i]
  {
    if listing != [] {
      GalleryPathsAreJpgs(listing[1..]);
      var head := if IsJpg(listing[0]) then [listing[0]] else [];
      var tail, tailPaths := FilterJpg(listing[1..]), GalleryPaths(listing[1..]);
      assert FilterJpg(listing) == head + tail;
      assert GalleryPaths(listing) == (if IsJpg(listing[0]) then [StaticPrefix + listing[0]] else []) + tailPaths;
      forall i | 0 <= i < |GalleryPaths(listing)|
        ensures GalleryPaths(listing)[i] == StaticPrefix + FilterJpg(listing)[i]
      {
        if i >= |head| {
          assert GalleryPaths(listing)[i] == tailPaths[i - |head|];
          assert FilterJpg(listing)[i] == tail[i - |head|];
        }
      }
    }
  }
}
