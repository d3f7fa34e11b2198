/**
 * The RWX joint-tag table: upper-case joint names to the fixed integer tags
 * of the avatar skeleton, looked up case-insensitively.
 */
module JointTags {
  import opened Wrappers

  /** One row of the `RWXtag` table: an upper-case joint name and its tag. */
  datatype TagEntry = TagEntry(name: string, tag: int)

  const TAG_COUNT: nat := 44

  /**
   * Row `k` of the `RWXtag` table, in the order the table lists them: the
   * anatomical joints with tags 1..42, then the two attachment points SIGN
   * and PICTURE. Every row carries a valid tag, and the row is recovered from
   * its tag.
   */
  function TableEntry(k: nat): (e: TagEntry)
    requires k < TAG_COUNT
    ensures IsJointTag(e.tag) && TagIndex(e.tag) == k
  {
    match k
    case 0 => TagEntry("PELVIS", 1)
    case 1 => TagEntry("BACK", 2)
    case 2 => TagEntry("NECK", 3)
    case 3 => TagEntry("HEAD", 4)
    case 4 => TagEntry("RTSTERNUM", 5)
    case 5 => TagEntry("RTSHOULDER", 6)
    case 6 => TagEntry("RTELBOW", 7)
    case 7 => TagEntry("RTWRIST", 8)
    case 8 => TagEntry("RTFINGERS", 9)
    case 9 => TagEntry("LFSTERNUM", 10)
    case 10 => TagEntry("LFSHOULDER", 11)
    case 11 => TagEntry("LFELBOW", 12)
    case 12 => TagEntry("LFWRIST", 13)
    case 13 => TagEntry("LFFINGERS", 14)
    case 14 => TagEntry("RTHIP", 15)
    case 15 => TagEntry("RTKNEE", 16)
    case 16 => TagEntry("RTANKLE", 17)
    case 17 => TagEntry("RTTOES", 18)
    case 18 => TagEntry("LFHIP", 19)
    case 19 => TagEntry("LFKNEE", 20)
    case 20 => TagEntry("LFANKLE", 21)
    case 21 => TagEntry("LFTOES", 22)
    case 22 => TagEntry("NECK2", 23)
    case 23 => TagEntry("TAIL", 24)
    case 24 => TagEntry("TAIL2", 25)
    case 25 => TagEntry("TAIL3", 26)
    case 26 => TagEntry("TAIL4", 27)
    case 27 => TagEntry("OBJ1", 28)
    case 28 => TagEntry("OBJ2", 29)
    case 29 => TagEntry("OBJ3", 30)
    case 30 => TagEntry("HAIR", 31)
    case 31 => TagEntry("HAIR2", 32)
    case 32 => TagEntry("HAIR3", 33)
    case 33 => TagEntry("HAIR4", 34)
    case 34 => TagEntry("RTBREAST", 35)
    case 35 => TagEntry("LFBREAST", 36)
    case 36 => TagEntry("RTEYE", 37)
    case 37 => TagEntry("LFEYE", 38)
    case 38 => TagEntry("LIPS", 39)
    case 39 => TagEntry("NOSE", 40)
    case 40 => TagEntry("RTEAR", 41)
    case 41 => TagEntry("LFEAR", 42)
    case 42 => TagEntry("SIGN", 100)
    case 43 => TagEntry("PICTURE", 200)
  }

  /** The row holding tag `t`: tags 1..42 are rows 0..41, then SIGN and PICTURE. */
  function TagIndex(t: int): int {
    if t <= 42 then t - 1 else if t == 100 then 42 else 43
  }

  /** Scan of the table from row `k` on for a row named `key`. */
  function LookupFrom(key: string, k: nat): (r: Option<int>)
    requires k <= TAG_COUNT
    ensures r.Some? ==> IsJointTag(r.value)
    decreases TAG_COUNT - k
  {
    if k == TAG_COUNT then None
    else if TableEntry(k).name == key then Some(TableEntry(k).tag)
    else LookupFrom(key, k + 1)
  }

  /**
   * The scan from row `k` returns the tag of the first row from `k` on named
   * `key`, and `None` exactly when no such row exists.
   */
  lemma {:induction false} LookupFromFirstMatch(key: string, k: nat)
    requires k <= TAG_COUNT
    ensures var r := LookupFrom(key, k);
      && (r.Some? ==> k <= TagIndex(r.value) < TAG_COUNT && TableEntry(TagIndex(r.value)) == TagEntry(key, r.value))
      && (r.Some? ==> forall j :: k <= j < TagIndex(r.value) ==> TableEntry(j).name != key)
      && (r.None? <==> forall j :: k <= j < TAG_COUNT ==> TableEntry(j).name != key)
    decreases TAG_COUNT - k
  {
    if k < TAG_COUNT {
      var e := TableEntry(k);
      if e.name == key {
        assert LookupFrom(key, k) == Some(e.tag) && TagIndex(e.tag) == k;
      } else {
        LookupFromFirstMatch(key, k + 1);
        var r := LookupFrom(key, k + 1);
        assert LookupFrom(key, k) == r;
        var stop := if r.Some? then TagIndex(r.value) else TAG_COUNT;
        forall j | k <= j < stop
          ensures TableEntry(j).name != key
        {
          if j == k {
            assert TableEntry(j) == e;
          }
        }
      }
    }
  }

  /**
   * `RWXtag[key]`, keyed by upper-case joint name. A name the table does not
   * hold gives `None`, JavaScript's `undefined`; a name it holds gives an
   * anatomical tag 1..42 or one of the attachments 100, 200. Keys inherited
   * from `Object.prototype` are not modelled: they all contain lower-case
   * letters, so no upper-cased name reaches them.
   */
  function RwxTag(key: string): (r: Option<int>)
    ensures r.Some? ==> IsJointTag(r.value)
  {
    LookupFrom(key, 0)
  }

  /**
   * What the table lookup returns: the tag of the first row named `key`, or
   * `None` exactly when no row has that name.
   */
  lemma {:induction false} RwxTagFirstMatch(key: string)
    ensures var r := RwxTag(key);
      && (r.Some? ==> TableEntry(TagIndex(r.value)) == TagEntry(key, r.value))
      && (r.Some? ==> forall j :: 0 <= j < TagIndex(r.value) ==> TableEntry(j).name != key)
      && (r.None? <==> forall j :: 0 <= j < TAG_COUNT ==> TableEntry(j).name != key)
  {
    LookupFromFirstMatch(key, 0);
  }

  /** The tag values the table can produce. */
  predicate IsJointTag(t: int) {
    1 <= t <= 42 || t == 100 || t == 200
  }

  predicate IsLower(c: char) {
    'a' <= c <= 'z'
  }

  /** `toUpperCase` on one character, for the ASCII letters. */
  function UpperChar(c: char): (u: char)
    ensures !IsLower(u)
    ensures IsLower(c) ==> u as int == c as int - 32
    ensures !IsLower(c) ==> u == c
  {
    if IsLower(c) then (c as int - 32) as char else c
  }

  function ToUpper(s: string): (u: string)
    ensures |u| == |s|
    ensures forall k {:trigger u[k]} :: 0 <= k < |s| ==> u[k] == UpperChar(s[k])
  {
    if |s| == 0 then [] else [UpperChar(s[0])] + ToUpper(s[1..])
  }

  predicate IsUpperCase(s: string) {
    forall k :: 0 <= k < |s| ==> !IsLower(s[k])
  }

  /**
   * `RWXtag[name.toUpperCase()]`. An unknown name gives `None` (JavaScript
   * `undefined`), which is a valid result and not a failure; a name found
   * always carries an anatomical tag 1..42 or one of the attachments 100, 200.
   */
  function Tag(name: string): (t: Option<int>)
    ensures IsUpperCase(name) ==> t == RwxTag(name)
    ensures t.Some? ==> IsJointTag(t.value)
  {
    assert IsUpperCase(name) ==> ToUpper(name) == name;
    RwxTag(ToUpper(name))
  }

  /** Two names that differ only in the case of ASCII letters. */
  predicate SameIgnoringCase(a: string, b: string) {
    |a| == |b| && forall k :: 0 <= k < |a| ==> UpperChar(a[k]) == UpperChar(b[k])
  }

  /** No two names of the table share a tag. */
  lemma {:induction false} RwxTagInjective(a: string, b: string)
    requires RwxTag(a).Some? && RwxTag(a) == RwxTag(b)
    ensures a == b
  {
    RwxTagFirstMatch(a);
    RwxTagFirstMatch(b);
  }

  /** The lookup is case-insensitive: names equal up to letter case get the same tag. */
  lemma {:induction false} TagCaseInsensitive(a: string, b: string)
    requires SameIgnoringCase(a, b)
    ensures Tag(a) == Tag(b)
  {
    assert ToUpper(a) == ToUpper(b);
  }

  /**
   * Conversely, two names that get the same known tag are the same name up to
   * letter case, so distinct known joints never share a slot of a frame.
   */
  lemma {:induction false} SameTagSameJoint(a: string, b: string)
    requires Tag(a).Some? && Tag(a) == Tag(b)
    ensures SameIgnoringCase(a, b)
  {
    RwxTagInjective(ToUpper(a), ToUpper(b));
    forall k | 0 <= k < |a|
      ensures UpperChar(a[k]) == UpperChar(b[k])
    {
      assert ToUpper(a)[k] == ToUpper(b)[k];
    }
  }

  lemma {:induction false} PelvisExamples()
    ensures Tag("pelvis") == Tag("PELVIS") == Tag("PeLvIs") == Some(1)
  {
    assert ToUpper("pelvis") == "PELVIS";
    assert ToUpper("PeLvIs") == "PELVIS";
  }

  /**
   * No two rows of the table carry the same name. An object literal with a
   * repeated key would keep its last value while the scan finds the first;
   * with distinct names the two agree.
   */
  lemma {:induction false} TableNamesDistinct(j: nat, k: nat)
    requires j < k < TAG_COUNT
    ensures TableEntry(j).name != TableEntry(k).name
  {
    if k < HALF {
      NamesDistinctFirstHalf(j, k);
    } else if j < HALF {
      NamesDistinctAcrossHalves(j, k);
    } else {
      NamesDistinctSecondHalf(j, k);
    }
  }

  /** The row the table is split at, so that each half is compared on its own. */
  const HALF: nat := 22

  lemma {:induction false} NamesDistinctFirstHalf(j: nat, k: nat)
    requires j < k < HALF
    ensures TableEntry(j).name != TableEntry(k).name
  {
  }

  lemma {:induction false} NamesDistinctAcrossHalves(j: nat, k: nat)
    requires j < HALF <= k < TAG_COUNT
    ensures TableEntry(j).name != TableEntry(k).name
  {
  }

  lemma {:induction false} NamesDistinctSecondHalf(j: nat, k: nat)
    requires HALF <= j < k < TAG_COUNT
    ensures TableEntry(j).name != TableEntry(k).name
  {
  }

  /** Every row of the table is what the lookup of its name returns. */
  lemma {:induction false} RwxTagOfRow(k: nat)
    requires k < TAG_COUNT
    ensures RwxTag(TableEntry(k).name) == Some(TableEntry(k).tag)
  {
    forall j | 0 <= j < k
      ensures TableEntry(j).name != TableEntry(k).name
    {
      TableNamesDistinct(j, k);
    }
    var r := RwxTag(TableEntry(k).name);
    RwxTagFirstMatch(TableEntry(k).name);
    assert r.Some?;
    assert TagIndex(r.value) == k;
  }

  lemma {:induction false} SignExample()
    ensures Tag("Sign") == Some(100)
  {
    assert ToUpper("Sign") == "SIGN";
    assert TableEntry(42) == TagEntry("SIGN", 100);
    RwxTagOfRow(42);
  }

  lemma {:induction false} PictureExample()
    ensures Tag("picture") == Some(200)
  {
    assert ToUpper("picture") == "PICTURE";
    assert TableEntry(43) == TagEntry("PICTURE", 200);
    RwxTagOfRow(43);
  }

  /** Every row name has at least four letters, and those starting with R start with RT. */
  lemma {:induction false} RowNameShape(k: nat)
    requires k < TAG_COUNT
    ensures |TableEntry(k).name| >= 4
    ensures TableEntry(k).name[0] == 'R' ==> TableEntry(k).name[1] == 'T'
  {
  }

  lemma {:induction false} UnknownExamples()
    ensures Tag("Root") == None && Tag("") == None
  {
    assert ToUpper("Root") == "ROOT";
    forall j | 0 <= j < TAG_COUNT
      ensures TableEntry(j).name != "ROOT" && TableEntry(j).name != ""
    {
      RowNameShape(j);
    }
    RwxTagFirstMatch("ROOT");
    RwxTagFirstMatch("");
  }
}
