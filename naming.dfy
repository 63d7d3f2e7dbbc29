/** The storage-name generator of multer's disk storage in the files route:
    `Date.now() + '-' + Math.round(Math.random() * 1E9)` followed by
    `path.extname(file.originalname)`. The clock and the random draw are
    parameters. */
module Naming {
  import opened Wrappers
  import opened Decimal
  import opened PathExt

  /** `Math.round(r * 1E9)` for a draw `r` of `Math.random()`, which lies in
      [0, 1); `Math.round` rounds halves upwards. */
  function RoundRandom(r: real): (k: nat)
    requires 0.0 <= r < 1.0
    ensures k <= 1000000000
    ensures k as real - 0.5 <= r * 1000000000.0 < k as real + 0.5
  {
    (r * 1000000000.0 + 0.5).Floor
  }

  /** The name under which an upload is written to the uploads directory,
      given the clock reading in milliseconds, the random draw and the
      client's original file name. */
  function StorageName(clock: nat, random: real, originalname: string): (name: string)
    requires 0.0 <= random < 1.0
    ensures name != []
  {
    DecimalString(clock) + ("-" + (DecimalString(RoundRandom(random)) + ExtName(originalname)))
  }

  /** The three parts a generated storage name is made of. */
  datatype NameParts = NameParts(clock: nat, random: nat, ext: string)

  /** Reads a storage name back into its parts: digits, `-`, digits, then
      either nothing or an extension starting with `.`. */
  function ParseStorageName(name: string): (r: Option<NameParts>)
    ensures r.Some? ==> r.value.ext == [] || r.value.ext[0] == '.'
  {
    var i := SpanDigits(name);
    if i == 0 || i == |name| || name[i] != '-' then None
    else
      var rest := name[i + 1..];
      var j := SpanDigits(rest);
      if j == 0 then None
      else
        var ext := rest[j..];
        if ext != [] && ext[0] != '.' then None
        else Some(NameParts(DecimalValue(name[..i]), DecimalValue(rest[..j]), ext))
  }

  /** Reading back a name assembled from two numbers and an extension. */
  lemma ParseJoined(a: nat, b: nat, ext: string)
    requires ext == [] || ext[0] == '.'
    ensures ParseStorageName(DecimalString(a) + ("-" + (DecimalString(b) + ext)))
         == Some(NameParts(a, b, ext))
  {
    var d1 := DecimalString(a);
    var d2 := DecimalString(b);
    var rest := d2 + ext;
    var tail := "-" + rest;
    var name := d1 + tail;
    SpanOfDigitsThen(d1, tail);
    Split(d1, tail);
    Split("-", rest);
    assert name[|d1| + 1..] == rest;
    SpanOfDigitsThen(d2, ext);
    Split(d2, ext);
    DecimalRoundTrip(a);
    DecimalRoundTrip(b);
  }

  lemma Split(x: string, y: string)
    ensures (x + y)[..|x|] == x && (x + y)[|x|..] == y
  {
  }

  /** Every generated name can be read back into the clock reading, the
      rounded random number and the original name's extension. */
  lemma StorageNameRoundTrip(clock: nat, random: real, originalname: string)
    requires 0.0 <= random < 1.0
    ensures ParseStorageName(StorageName(clock, random, originalname))
         == Some(NameParts(clock, RoundRandom(random), ExtName(originalname)))
  {
    ParseJoined(clock, RoundRandom(random), ExtName(originalname));
  }

  /** Two generated names are equal only when they were made from the same
      clock reading and the same rounded random number (and carry the same
      extension): names from different milliseconds or different draws never
      collide. */
  lemma StorageNameInjective(c1: nat, r1: real, o1: string, c2: nat, r2: real, o2: string)
    requires 0.0 <= r1 < 1.0 && 0.0 <= r2 < 1.0
    ensures StorageName(c1, r1, o1) == StorageName(c2, r2, o2) ==>
      c1 == c2 && RoundRandom(r1) == RoundRandom(r2) && ExtName(o1) == ExtName(o2)
  {
    StorageNameRoundTrip(c1, r1, o1);
    StorageNameRoundTrip(c2, r2, o2);
  }

  /** The generated name has the same extension as the original name, with
      its leading dot, and none when the original has none. */
  lemma StorageNameKeepsExtension(clock: nat, random: real, originalname: string)
    requires 0.0 <= random < 1.0
    ensures ExtName(StorageName(clock, random, originalname)) == ExtName(originalname)
  {
    ExtOfJoined(clock, RoundRandom(random), ExtName(originalname));
  }

  lemma ExtOfJoined(a: nat, b: nat, ext: string)
    requires ext == [] || (ext[0] == '.' && NoneFrom(ext, 1, '.'))
    requires NoneFrom(ext, 0, '/')
    ensures ExtName(DecimalString(a) + ("-" + (DecimalString(b) + ext))) == ext
  {
    var stem := DecimalString(a) + ("-" + DecimalString(b));
    Regroup(DecimalString(a), "-", DecimalString(b), ext);
    PlainStem(DecimalString(a), DecimalString(b));
    ExtAfterPlainStem(stem, ext);
  }

  /** `d1-d2` holds no `.` and no `/` when `d1` and `d2` are digit strings. */
  lemma PlainStem(d1: string, d2: string)
    requires AllDigits(d1) && AllDigits(d2)
    ensures NoneFrom(d1 + ("-" + d2), 0, '.') && NoneFrom(d1 + ("-" + d2), 0, '/')
  {
    var stem := d1 + ("-" + d2);
    forall k | 0 <= k < |stem| ensures stem[k] != '.' && stem[k] != '/' {
      if k < |d1| { assert stem[k] == d1[k]; }
      else if k > |d1| { assert stem[k] == d2[k - |d1| - 1]; }
    }
  }

  lemma Regroup(w: string, x: string, y: string, z: string)
    ensures w + (x + (y + z)) == (w + (x + y)) + z
  {
  }
}
