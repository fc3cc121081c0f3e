/**
 * The `filename` callback of the upload server's disk storage: the name
 * under which an accepted file is written into the upload directory,
 * `{base}-{Date.now()}-{Math.round(Math.random() * 1e9)}{ext}`, where `ext`
 * is the extension of the client's file name and `base` is its base name
 * with every run of whitespace replaced by '_'. The clock reading and the
 * random draw are parameters.
 */
module StorageNaming {
  import opened Wrappers
  import opened PosixPath
  import opened Decimal
  import opened Whitespace

  /**
   * `Math.round(Math.random() * 1e9)` lies in 0..RandomBound, both ends
   * included. Recorded only: no property here depends on the bound.
   */
  const RandomBound: nat := 1000000000

  /** `path.basename(originalname, ext).replace(/\s+/g, '_')`, `ext` being `path.extname(originalname)`. */
  function SanitisedBase(originalname: string): (base: string)
    ensures NoWhitespace(base)
    ensures '/' !in base
  {
    var raw := BaseName(originalname, ExtName(originalname));
    BaseNameWithExtName(originalname);
    ReplaceAddsOnlyUnderscores(raw, '/');
    ReplaceWhitespaceRuns(raw)
  }

  /** `${Date.now()}-${Math.round(Math.random() * 1e9)}` */
  function UniqueSuffix(now: nat, random: nat): (u: string)
    ensures |u| >= 3 && u[0] != '-' && u[|u| - 1] != '-'
    ensures forall i :: 0 <= i < |u| ==> IsDigit(u[i]) || u[i] == '-'
  {
    NatToString(now) + "-" + NatToString(random)
  }

  /** The generated storage name. */
  function StorageName(originalname: string, now: nat, random: nat): (name: string)
    ensures |name| >= |ExtName(originalname)| + 4
    ensures name[|name| - |ExtName(originalname)|..] == ExtName(originalname)
  {
    SanitisedBase(originalname) + "-" + UniqueSuffix(now, random) + ExtName(originalname)
  }

  /**
   * The name begins with the sanitised base and a '-', and ends with the
   * extension of the original name.
   */
  lemma StorageNameLayout(originalname: string, now: nat, random: nat)
    ensures var name, base, ext := StorageName(originalname, now, random), SanitisedBase(originalname), ExtName(originalname);
      && |base| + 1 + |ext| < |name|
      && name[..|base| + 1] == base + "-"
      && name[|name| - |ext|..] == ext
      && NoWhitespace(name[..|base|])
  {
  }

  /**
   * The name has no '/': whatever directories the client's file name
   * mentions, the file lands directly in the upload directory.
   */
  lemma StorageNameStaysInUploadDir(originalname: string, now: nat, random: nat)
    ensures '/' !in StorageName(originalname, now, random)
  {
    var base, u, ext := SanitisedBase(originalname), UniqueSuffix(now, random), ExtName(originalname);
    assert '/' !in u by {
      forall i | 0 <= i < |u| ensures u[i] != '/' {
        assert IsDigit(u[i]) || u[i] == '-';
      }
    }
    assert StorageName(originalname, now, random) == base + "-" + u + ext;
  }

  /** How many digits `s` starts with. */
  function LeadingDigits(s: string): (k: nat)
    ensures k <= |s|
  {
    if s != [] && IsDigit(s[0]) then 1 + LeadingDigits(s[1..]) else 0
  }

  /** In digits, a '-' and anything, the digits end at the '-'. */
  lemma {:induction false} LeadingDigitsStopAtDash(digits: string, rest: string)
    requires AllDigits(digits)
    ensures LeadingDigits(digits + "-" + rest) == |digits|
  {
    if digits != [] {
      assert (digits + "-" + rest)[1..] == digits[1..] + "-" + rest;
      LeadingDigitsStopAtDash(digits[1..], rest);
    }
  }

  /** The timestamp and the random draw can be read back from their joint suffix. */
  lemma UniqueSuffixInjective(now1: nat, random1: nat, now2: nat, random2: nat)
    requires UniqueSuffix(now1, random1) == UniqueSuffix(now2, random2)
    ensures now1 == now2 && random1 == random2
  {
    var u := UniqueSuffix(now1, random1);
    var s1, s2 := NatToString(now1), NatToString(now2);
    LeadingDigitsStopAtDash(s1, NatToString(random1));
    LeadingDigitsStopAtDash(s2, NatToString(random2));
    assert s1 == u[..|s1|] == s2;
    assert NatToString(random1) == u[|s1| + 1..] == NatToString(random2);
    NatToStringInjective(now1, now2);
    NatToStringInjective(random1, random2);
  }

  /**
   * For one original file name, distinct (timestamp, random) pairs give
   * distinct storage names: the suffix is what makes the name unique.
   */
  lemma StorageNameInjective(originalname: string, now1: nat, random1: nat, now2: nat, random2: nat)
    requires StorageName(originalname, now1, random1) == StorageName(originalname, now2, random2)
    ensures now1 == now2 && random1 == random2
  {
    var name := StorageName(originalname, now1, random1);
    var prefix, ext := SanitisedBase(originalname) + "-", ExtName(originalname);
    var u1, u2 := UniqueSuffix(now1, random1), UniqueSuffix(now2, random2);
    assert name == prefix + u1 + ext == prefix + u2 + ext;
    assert u1 == name[|prefix|..|name| - |ext|] == u2;
    UniqueSuffixInjective(now1, random1, now2, random2);
  }

  /** A name without '/' that does not end in '/' is its own last segment. */
  lemma LastSegmentOfPlainName(name: string)
    requires name != [] && '/' !in name
    ensures LastSegment(name) == name
  {
  }

  /** If the last '.' of `s` is at index `dot`, LastIndexOf finds it there. */
  lemma LastDotAt(s: string, dot: nat)
    requires dot < |s| && s[dot] == '.' && '.' !in s[dot + 1..]
    ensures LastIndexOf(s, '.') == Some(dot)
  {
  }

  /** The sanitised base has no '.' after its first character when the raw base has none. */
  lemma {:induction false} ReplaceKeepsNoInnerDot(s: string)
    requires !HasInnerDot(s)
    ensures !HasInnerDot(ReplaceWhitespaceRuns(s))
  {
    if s != [] {
      assert '.' !in s[1..] by {
        forall j | 0 <= j < |s[1..]| ensures s[1..][j] != '.' {
          assert s[1..][j] == s[j + 1];
        }
      }
      if IsWhitespace(s[0]) {
        SkipSplits(s[1..]);
        ReplaceAddsOnlyUnderscores(SkipWhitespace(s[1..]), '.');
      } else {
        ReplaceAddsOnlyUnderscores(s[1..], '.');
      }
    }
  }

  /**
   * Node reads the same extension off the stored name as off the original
   * name, unless the original's last segment is "..", whose extension is ""
   * while that of the stored name "..-{now}-{random}" is not.
   */
  lemma {:induction false} StorageNameKeepsExtension(originalname: string, now: nat, random: nat)
    requires LastSegment(originalname) != ".."
    ensures ExtName(StorageName(originalname, now, random)) == ExtName(originalname)
  {
    ExtNameCharacterised(originalname);
    if ExtName(originalname) != [] {
      KeepsNonEmptyExtension(originalname, now, random);
    } else {
      KeepsEmptyExtension(originalname, now, random);
    }
  }

  /** StorageNameKeepsExtension when the original name has an extension. */
  lemma {:induction false} KeepsNonEmptyExtension(originalname: string, now: nat, random: nat)
    requires ExtName(originalname) != []
    ensures ExtName(StorageName(originalname, now, random)) == ExtName(originalname)
  {
    var name, ext := StorageName(originalname, now, random), ExtName(originalname);
    var prefix := SanitisedBase(originalname) + "-" + UniqueSuffix(now, random);
    StorageNameStaysInUploadDir(originalname, now, random);
    ExtNameCharacterised(originalname);
    assert name == prefix + ext;
    ExtNameOfPlainNameWithExt(prefix, ext);
  }

  /** A name without '/' whose tail is a '.' and dot-free text has that tail as its extension (for a prefix of two or more characters, so the name is not ".."). */
  lemma {:induction false} ExtNameOfPlainNameWithExt(prefix: string, ext: string)
    requires |prefix| > 1 && '/' !in prefix + ext
    requires ext != [] && ext[0] == '.' && '.' !in ext[1..]
    ensures ExtName(prefix + ext) == ext
  {
    var name := prefix + ext;
    LastSegmentOfPlainName(name);
    assert name[|prefix| + 1..] == ext[1..];
    LastDotAt(name, |prefix|);
    assert name[|prefix|..] == ext;
  }

  /** StorageNameKeepsExtension when the original name has none. */
  lemma {:induction false} KeepsEmptyExtension(originalname: string, now: nat, random: nat)
    requires ExtName(originalname) == []
    requires !HasInnerDot(LastSegment(originalname))
    ensures ExtName(StorageName(originalname, now, random)) == []
  {
    var name, base := StorageName(originalname, now, random), SanitisedBase(originalname);
    StorageNameStaysInUploadDir(originalname, now, random);
    LastSegmentOfPlainName(name);
    SanitisedBaseNoInnerDot(originalname);
    var u := "-" + UniqueSuffix(now, random);
    assert name == base + u;
    NoDotInSuffix(now, random);
    NoInnerDotAppend(base, u);
    ExtNameWithoutInnerDot(name);
  }

  lemma {:induction false} SanitisedBaseNoInnerDot(originalname: string)
    requires ExtName(originalname) == []
    requires !HasInnerDot(LastSegment(originalname))
    ensures !HasInnerDot(SanitisedBase(originalname))
  {
    BaseNameWithExtName(originalname);
    assert BaseName(originalname, []) == LastSegment(originalname);
    ReplaceKeepsNoInnerDot(LastSegment(originalname));
  }

  lemma NoDotInSuffix(now: nat, random: nat)
    ensures '.' !in "-" + UniqueSuffix(now, random)
  {
  }

  lemma NoInnerDotAppend(b: string, u: string)
    requires !HasInnerDot(b) && '.' !in u
    ensures !HasInnerDot(b + u)
  {
  }

  /** A client file "a b.png", stored at time 7 with random draw 42, is written as "a_b-7-42.png". */
  lemma StorageNameExample()
    ensures StorageName("a b.png", 7, 42) == "a_b-7-42.png"
  {
    var o := "a b.png";
    assert TrimTrailingSlashes(o) == o && SegmentStart(o) == 0;
    LastDotAt(o, 3);
    assert ExtName(o) == ".png";
    BaseNameWithExtName(o);
    assert BaseName(o, ".png") == "a b";
    assert SkipWhitespace("b") == "b" && ReplaceWhitespaceRuns("b") == "b";
    assert ReplaceWhitespaceRuns("a b") == "a_b";
    assert NatToString(42) == "42";
  }

  /**
   * The exception in StorageNameKeepsExtension: ".." has no extension, but
   * the name it is stored under, "..-7-42", has the extension ".-7-42".
   */
  lemma DotDotGainsExtension()
    ensures ExtName("..") == ""
    ensures StorageName("..", 7, 42) == "..-7-42"
    ensures ExtName(StorageName("..", 7, 42)) == ".-7-42"
  {
    assert TrimTrailingSlashes("..") == ".." && SegmentStart("..") == 0;
    assert BaseName("..", "") == "..";
    ReplaceKeepsText("..");
    assert NatToString(42) == "42";
    var name := "..-7-42";
    StorageNameStaysInUploadDir("..", 7, 42);
    LastSegmentOfPlainName(name);
    LastDotAt(name, 1);
  }
}
