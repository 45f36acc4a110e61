/**
 * The catalog's payload references: how they are paged, where each payload
 * lives, and the cross-check of one against the other.
 */
module Payloads {
  import opened Wrappers
  import opened Filesystem
  import opened Layout
  import opened Walking

  // ------------------------------------------------------------ identifiers

  function Pow16(k: nat): (n: nat)
    ensures n > 0
  {
    if k == 0 then 1 else 16 * Pow16(k - 1)
  }

  lemma {:induction false} Pow16Twice(k: nat)
    ensures Pow16(2 * k) == Pow16(k) * Pow16(k)
  {
    if k > 0 {
      Pow16Twice(k - 1);
      var x := Pow16(k - 1);
      assert Pow16(2 * k) == 16 * (16 * Pow16(2 * (k - 1)));
      assert 16 * (16 * (x * x)) == (16 * x) * (16 * x);
    }
  }

  /** Thirty-two hexadecimal digits are 128 bits. */
  lemma DigitsOfAnId()
    ensures Pow16(32) == 0x1_0000_0000_0000_0000_0000_0000_0000_0000
  {
    assert Pow16(2) == 0x100;
    Pow16Twice(2);
    Pow16Twice(4);
    Pow16Twice(8);
    Pow16Twice(16);
  }

  /** A payload's identifier, read as a number. */
  type ObjectId = nat

  /** Identifiers are 128-bit UUIDs. */
  ghost predicate AreUuids(ids: set<ObjectId>) {
    forall id :: id in ids ==> id < 0x1_0000_0000_0000_0000_0000_0000_0000_0000
  }

  const HEX: string := "0123456789abcdef"

  /** The last `k` hexadecimal digits. */
  function Hex(n: nat, k: nat): (s: string)
    ensures |s| == k
  {
    if k == 0 then "" else Hex(n / 16, k - 1) + [HEX[n % 16]]
  }

  function Encoded(id: ObjectId): (s: string)
    ensures |s| == 32
  {
    Hex(id, 32)
  }

  lemma HexDigitsDiffer(i: nat, j: nat)
    requires i < 16 && j < 16 && HEX[i] == HEX[j]
    ensures i == j
  {
  }

  lemma {:induction false} HexInjective(a: nat, b: nat, k: nat)
    requires a < Pow16(k) && b < Pow16(k) && Hex(a, k) == Hex(b, k)
    ensures a == b
  {
    if k > 0 {
      var x, y := Hex(a, k), Hex(b, k);
      assert Hex(a / 16, k - 1) == x[..k - 1] && Hex(b / 16, k - 1) == y[..k - 1];
      assert x[k - 1] == HEX[a % 16] && y[k - 1] == HEX[b % 16];
      HexDigitsDiffer(a % 16, b % 16);
      HexInjective(a / 16, b / 16, k - 1);
    }
  }

  predicate IsHexDigit(c: char) {
    '0' <= c <= '9' || 'a' <= c <= 'f'
  }

  function DigitValue(c: char): nat
    requires IsHexDigit(c)
  {
    if c <= '9' then c as int - '0' as int else 10 + c as int - 'a' as int
  }

  /** The number some hexadecimal digits write, the most significant first. */
  function NumberOf(s: string): nat
    requires forall c :: c in s ==> IsHexDigit(c)
  {
    if s == "" then 0 else NumberOf(s[..|s| - 1]) * 16 + DigitValue(s[|s| - 1])
  }

  lemma HexDigits(d: nat)
    requires d < 16
    ensures IsHexDigit(HEX[d]) && DigitValue(HEX[d]) == d
  {
  }

  lemma {:induction false} HexReadsBack(n: nat, k: nat)
    requires n < Pow16(k)
    ensures (forall c :: c in Hex(n, k) ==> IsHexDigit(c)) && NumberOf(Hex(n, k)) == n
  {
    if k > 0 {
      var front, last := Hex(n / 16, k - 1), HEX[n % 16];
      HexReadsBack(n / 16, k - 1);
      HexDigits(n % 16);
      assert Hex(n, k) == front + [last] && (front + [last])[..|front|] == front;
    }
  }

  /** An identifier is written as thirty-two lower-case digits that read as it. */
  lemma EncodedReadsBack(id: ObjectId)
    requires AreUuids({id})
    ensures |Encoded(id)| == 32 && (forall c :: c in Encoded(id) ==> IsHexDigit(c)) && NumberOf(Encoded(id)) == id
  {
    assert id in {id};
    DigitsOfAnId();
    HexReadsBack(id, 32);
  }

  /** Where a payload of this name is kept: under its first two and its next two characters. */
  function ShardOf(name: string): (p: Path)
    requires |name| >= 4
    ensures |p| == 4 && p[0] == OBJECTS && |p[1]| == |p[2]| == 2 && p[1] + p[2] <= p[3] == name
  {
    [OBJECTS, name[0..2], name[2..4], name]
  }

  /** A payload kept under the first four characters of its name, two by two. */
  ghost predicate Kept(t: Tree, name: string) {
    exists a, b :: |a| == 2 && |b| == 2 && a + b <= name && IsFile(t, ["objects", a, b, name])
  }

  lemma PresentIsKept(t: Tree, id: ObjectId)
    ensures Present(t, id) <==> Kept(t, Encoded(id))
  {
    var name := Encoded(id);
    var p := ShardOf(name);
    assert p == ["objects", p[1], p[2], name];
    if Kept(t, name) {
      var a, b :| |a| == 2 && |b| == 2 && a + b <= name && IsFile(t, ["objects", a, b, name]);
      assert a == (a + b)[..2] == name[..2] && b == (a + b)[2..] == name[2..4];
    }
  }

  predicate Present(t: Tree, id: ObjectId) {
    IsFile(t, ShardOf(Encoded(id)))
  }

  // ----------------------------------------------------------------- paging

  /** Identifiers after the cursor. */
  function Beyond(stored: seq<ObjectId>, after: Option<ObjectId>): set<ObjectId> {
    set id | id in stored && (after.None? || id > after.value)
  }

  /** `page` holds the `n` smallest members of `all`, or all of them. */
  ghost predicate IsLowest(page: set<ObjectId>, all: set<ObjectId>, n: nat) {
    && page <= all
    && |page| == (if |all| < n then |all| else n)
    && forall x, y :: x in page && y in all - page ==> x < y
  }

  method Largest(s: set<ObjectId>) returns (m: ObjectId)
    requires s != {}
    ensures m in s && forall x :: x in s ==> x <= m
  {
    m :| m in s;
    var rest := s - {m};
    while rest != {}
      invariant rest <= s && m in s
      invariant forall x :: x in s && x !in rest ==> x <= m
      decreases rest
    {
      var x :| x in rest;
      if x > m { m := x; }
      rest := rest - {x};
    }
  }

  /** Adding one candidate and dropping the largest surplus keeps the lowest ones. */
  lemma LowestWithOneMore(page: set<ObjectId>, all: set<ObjectId>, n: nat, id: ObjectId, top: ObjectId)
    requires IsLowest(page, all, n) && n > 0
    requires top in page + {id} && forall x :: x in page + {id} ==> x <= top
    ensures |page + {id}| <= n ==> IsLowest(page + {id}, all + {id}, n)
    ensures |page + {id}| > n ==> IsLowest(page + {id} - {top}, all + {id}, n)
  {
    var more := all + {id};
    if id in page {
      assert page + {id} == page && more == all;
    } else if id in all {
      assert more == all;
      assert |page| < |all| by { Smaller(page, all, id); }
      assert |page + {id}| == n + 1;
      assert top == id by { assert id in all - page; assert top in page ==> top < id; }
      assert page + {id} - {top} == page;
    } else {
      assert |more| == |all| + 1 && |page + {id}| == |page| + 1;
      if |page| == n {
        var kept := page + {id} - {top};
        assert |kept| == n;
        forall x, y | x in kept && y in more - kept ensures x < y {
          assert y == top || y in all - page;
        }
      } else {
        assert page == all by { SameSize(page, all); }
      }
    }
  }

  /** Dropping the one surplus identifier leaves a full page, short of everything. */
  lemma LowestTruncated(held: set<ObjectId>, all: set<ObjectId>, n: nat, top: ObjectId)
    requires IsLowest(held, all, n + 1) && |held| > n
    requires top in held && forall x :: x in held ==> x <= top
    ensures IsLowest(held - {top}, all, n) && held - {top} != all
  {
    var page := held - {top};
    assert |page| == n;
    assert top in all;
    forall x, y | x in page && y in all - page ensures x < y {
      assert y == top || y in all - held;
    }
  }

  lemma BeyondOneMore(stored: seq<ObjectId>, i: nat, after: Option<ObjectId>)
    requires i < |stored|
    ensures Beyond(stored[..i + 1], after) ==
            Beyond(stored[..i], after) + if after.None? || stored[i] > after.value then {stored[i]} else {}
  {
    assert stored[..i + 1] == stored[..i] + [stored[i]];
  }

  lemma Smaller<T>(a: set<T>, b: set<T>, x: T)
    requires a <= b && x in b - a
    ensures |a| < |b|
  {
    assert a <= b - {x};
    SizeWithin(a, b - {x});
  }

  lemma SizeWithin<T>(a: set<T>, b: set<T>)
    requires a <= b
    ensures |a| <= |b|
  {
    assert b == a + (b - a);
    assert |b| == |a| + |b - a|;
  }

  lemma SameSize<T>(a: set<T>, b: set<T>)
    requires a <= b && |a| == |b|
    ensures a == b
  {
    assert b == a + (b - a);
    assert |b| == |a| + |b - a|;
  }

  datatype Page = Page(ids: set<ObjectId>, next: Option<ObjectId>)

  /** A page read at a cursor: the lowest identifiers beyond it, and where to go on from. */
  ghost predicate IsPage(stored: seq<ObjectId>, after: Option<ObjectId>, limit: nat, page: Page) {
    var all := Beyond(stored, after);
    && IsLowest(page.ids, all, limit)
    && (page.next.None? <==> page.ids == all)
    && (page.next.Some? ==> page.next.value in page.ids && forall x :: x in page.ids ==> x <= page.next.value)
  }

  /**
   * One page of references: the lowest `limit` identifiers after the cursor,
   * found in a single pass that never holds more than `limit + 1` of them.
   */
  method ListPayloadReferences(stored: seq<ObjectId>, after: Option<ObjectId>, limit: nat)
    returns (r: Option<Page>)
    ensures r.None? <==> limit == 0 || limit > 1000
    ensures r.Some? ==> IsPage(stored, after, limit, r.value)
  {
    if limit == 0 || limit > 1000 {
      return None;
    }
    var identifiers := Lowest(stored, after, limit);
    if |identifiers| > limit {
      var last := Largest(identifiers);
      LowestTruncated(identifiers, Beyond(stored, after), limit, last);
      identifiers := identifiers - {last};
      var cursor := Largest(identifiers);
      r := Some(Page(identifiers, Some(cursor)));
    } else {
      assert identifiers == Beyond(stored, after) by { SameSize(identifiers, Beyond(stored, after)); }
      r := Some(Page(identifiers, None));
    }
  }

  /** The single pass over the catalog rows. */
  method Lowest(stored: seq<ObjectId>, after: Option<ObjectId>, limit: nat) returns (identifiers: set<ObjectId>)
    ensures IsLowest(identifiers, Beyond(stored, after), limit + 1)
  {
    identifiers := {};
    for i := 0 to |stored|
      invariant IsLowest(identifiers, Beyond(stored[..i], after), limit + 1)
    {
      var id := stored[i];
      BeyondOneMore(stored, i, after);
      if after.None? || id > after.value {
        var last := Largest(identifiers + {id});
        LowestWithOneMore(identifiers, Beyond(stored[..i], after), limit + 1, id, last);
        identifiers := identifiers + {id};
        if |identifiers| > limit + 1 {
          identifiers := identifiers - {last};
        }
      }
    }
    assert stored[..|stored|] == stored;
  }

  // ------------------------------------------------------------ cross-check

  function Saturate(n: nat): nat {
    if n > U64_MAX then U64_MAX else n
  }

  function References(stored: seq<ObjectId>): set<ObjectId> {
    set id | id in stored
  }

  function Missing(t: Tree, ids: set<ObjectId>): set<ObjectId> {
    set id | id in ids && !Present(t, id)
  }

  function PayloadFiles(t: Tree): set<Path> {
    set p | p in t && t[p].File? && [OBJECTS] <= p
  }

  function FileName(p: Path): string {
    if p == [] then "" else p[|p| - 1]
  }

  function EncodedAll(ids: set<ObjectId>): set<string> {
    set id | id in ids :: Encoded(id)
  }

  function Unreferenced(t: Tree, ids: set<ObjectId>): set<Path> {
    set p | p in PayloadFiles(t) && FileName(p) !in EncodedAll(ids)
  }

  datatype Cross = Cross(references: nat, missing: nat, unreferenced: nat)

  lemma OneMoreMissing(t: Tree, seen: set<ObjectId>, id: ObjectId)
    requires id !in seen
    ensures |Missing(t, seen + {id})| == |Missing(t, seen)| + if Present(t, id) then 0 else 1
  {
    if Present(t, id) {
      assert Missing(t, seen + {id}) == Missing(t, seen);
    } else {
      assert Missing(t, seen + {id}) == Missing(t, seen) + {id};
    }
  }

  lemma OneMoreEncoded(seen: set<ObjectId>, id: ObjectId)
    ensures EncodedAll(seen + {id}) == EncodedAll(seen) + {Encoded(id)}
  {
    assert forall other :: other in seen + {id} <==> other in seen || other == id;
  }

  lemma OneMore(t: Tree, seen: set<ObjectId>, id: ObjectId)
    requires id !in seen
    ensures |seen + {id}| == |seen| + 1
    ensures |Missing(t, seen + {id})| == |Missing(t, seen)| + if Present(t, id) then 0 else 1
    ensures EncodedAll(seen + {id}) == EncodedAll(seen) + {Encoded(id)}
  {
    OneMoreMissing(t, seen, id);
    OneMoreEncoded(seen, id);
  }

  /** One page: count each reference, and each one whose payload is not where it belongs. */
  method CheckPage(t: Tree, ids: set<ObjectId>, ghost seen: set<ObjectId>,
                   references: nat, missing: nat, referenced: set<string>)
    returns (references': nat, missing': nat, referenced': set<string>)
    requires ids !! seen
    requires references == Saturate(|seen|) && missing == Saturate(|Missing(t, seen)|)
    requires referenced == EncodedAll(seen)
    ensures references' == Saturate(|seen + ids|) && missing' == Saturate(|Missing(t, seen + ids)|)
    ensures referenced' == EncodedAll(seen + ids)
  {
    references', missing', referenced' := references, missing, referenced;
    var rest := ids;
    ghost var now := seen;
    while rest != {}
      invariant now !! rest && now + rest == seen + ids
      invariant references' == Saturate(|now|) && missing' == Saturate(|Missing(t, now)|)
      invariant referenced' == EncodedAll(now)
      decreases rest
    {
      var id :| id in rest;
      references' := SaturatingAdd(references', 1);
      if !Present(t, id) {
        missing' := SaturatingAdd(missing', 1);
      }
      referenced' := referenced' + {Encoded(id)};
      OneMore(t, now, id);
      now, rest := now + {id}, rest - {id};
    }
    assert now == seen + ids;
  }

  /** The files of a list whose names are none of these. */
  ghost function Unnamed(files: seq<Path>, referenced: set<string>): set<Path> {
    set p | p in files && FileName(p) !in referenced
  }

  lemma OneMoreFile(front: seq<Path>, last: Path, referenced: set<string>)
    requires last !in front
    ensures |Unnamed(front + [last], referenced)| ==
            |Unnamed(front, referenced)| + if FileName(last) in referenced then 0 else 1
  {
    var before := Unnamed(front, referenced);
    if FileName(last) in referenced {
      assert Unnamed(front + [last], referenced) == before;
    } else {
      assert Unnamed(front + [last], referenced) == before + {last};
      assert last !in before;
    }
  }

  lemma NotEarlier(files: seq<Path>, i: nat)
    requires Distinct(files) && i < |files|
    ensures files[i] !in files[..i] && files[..i + 1] == files[..i] + [files[i]]
  {
  }

  method CountUnreferenced(files: seq<Path>, referenced: set<string>) returns (count: nat)
    requires Distinct(files)
    ensures count == Saturate(|Unnamed(files, referenced)|)
  {
    count := 0;
    assert Unnamed(files[..0], referenced) == {};
    for i := 0 to |files|
      invariant count == Saturate(|Unnamed(files[..i], referenced)|)
    {
      NotEarlier(files, i);
      OneMoreFile(files[..i], files[i], referenced);
      if FileName(files[i]) !in referenced {
        count := SaturatingAdd(count, 1);
      }
    }
    assert files[..|files|] == files;
  }

  /** What remains after a page lies beyond its last identifier. */
  lemma PageBoundary(stored: seq<ObjectId>, after: Option<ObjectId>, limit: nat, page: Page)
    requires IsPage(stored, after, limit, page) && page.next.Some?
    ensures Beyond(stored, page.next) == Beyond(stored, after) - page.ids
    ensures page.ids <= Beyond(stored, after) && page.ids != {}
  {
    var all, rest := Beyond(stored, after), Beyond(stored, page.next);
    forall id | id in all - page.ids ensures id in rest {
      assert page.next.value < id;
    }
    forall id | id in rest ensures id in all - page.ids {
      assert page.next.value in all;
    }
  }

  lemma PageAdvances(all: set<ObjectId>, beyond: set<ObjectId>, ids: set<ObjectId>, seen: set<ObjectId>)
    requires seen !! beyond && seen + beyond == all && ids <= beyond
    ensures ids !! seen
    ensures (seen + ids) !! (beyond - ids) && (seen + ids) + (beyond - ids) == all
  {
  }

  /** The paging loop: it ends on every catalog and meets every reference once. */
  method CountReferences(t: Tree, stored: seq<ObjectId>)
    returns (references: nat, missing: nat, referenced: set<string>)
    ensures references == Saturate(|References(stored)|)
    ensures missing == Saturate(|Missing(t, References(stored))|)
    ensures referenced == EncodedAll(References(stored))
  {
    var cursor: Option<ObjectId> := None;
    referenced, missing, references := {}, 0, 0;
    ghost var all, seen: set<ObjectId> := References(stored), {};
    assert Beyond(stored, None) == all;
    while true
      invariant seen !! Beyond(stored, cursor) && seen + Beyond(stored, cursor) == all
      invariant references == Saturate(|seen|) && missing == Saturate(|Missing(t, seen)|)
      invariant referenced == EncodedAll(seen)
      decreases Beyond(stored, cursor)
    {
      var page := ListPayloadReferences(stored, cursor, 1000);
      PageAdvances(all, Beyond(stored, cursor), page.value.ids, seen);
      references, missing, referenced := CheckPage(t, page.value.ids, seen, references, missing, referenced);
      seen := seen + page.value.ids;
      if page.value.next.None? {
        assert seen == all;
        return;
      }
      PageBoundary(stored, cursor, 1000, page.value);
      cursor := page.value.next;
    }
  }

  /**
   * The cross-check: how many payloads the catalog references, how many of those
   * are not a file at their sharded path, and how many files nothing references.
   */
  method CrossCheck(os: System, t: Tree, stored: seq<ObjectId>) returns (r: Option<Cross>)
    requires Lawful(os) && WellFormed(t)
    ensures r.None? <==> IsFile(t, [OBJECTS])
    ensures r.Some? ==>
              var all := References(stored);
              && r.value.references == Saturate(|all|)
              && r.value.missing == Saturate(|Missing(t, all)|)
              && r.value.unreferenced == Saturate(|Unreferenced(t, all)|)
  {
    var references, missing, referenced := CountReferences(t, stored);
    var files := WalkTree(os, t, [OBJECTS]);
    if files.None? {
      return None;
    }
    var unreferenced := CountUnreferenced(files.value, referenced);
    assert Unnamed(files.value, referenced) == Unreferenced(t, References(stored));
    r := Some(Cross(references, missing, unreferenced));
  }

  predicate AllPresent(t: Tree, ids: set<ObjectId>) {
    forall id :: id in ids ==> Present(t, id)
  }

  lemma AllKept(t: Tree, ids: set<ObjectId>)
    ensures AllPresent(t, ids) <==> forall id :: id in ids ==> Kept(t, Encoded(id))
  {
    forall id | id in ids ensures Present(t, id) <==> Kept(t, Encoded(id)) {
      PresentIsKept(t, id);
    }
  }

  /** Nothing is missing exactly when every reference resolves. */
  lemma NoneMissing(t: Tree, ids: set<ObjectId>)
    ensures Saturate(|Missing(t, ids)|) == 0 <==> AllPresent(t, ids)
    ensures Saturate(|Missing(t, ids)|) == 0 <==> forall id :: id in ids ==> Kept(t, Encoded(id))
  {
    AllKept(t, ids);
    if AllPresent(t, ids) {
      assert Missing(t, ids) == {};
    } else {
      var id :| id in ids && !Present(t, id);
      assert id in Missing(t, ids);
    }
  }

  ghost predicate Filed(t: Tree) {
    forall p :: p in PayloadFiles(t) ==> |FileName(p)| >= 4 && p == ShardOf(FileName(p))
  }

  lemma ShardsDiffer(ids: set<ObjectId>, x: ObjectId, y: ObjectId)
    requires AreUuids(ids) && x in ids && y in ids && x != y
    ensures ShardOf(Encoded(x)) != ShardOf(Encoded(y))
  {
    DigitsOfAnId();
    if Encoded(x) == Encoded(y) {
      HexInjective(x, y, 32);
    }
    assert ShardOf(Encoded(x))[3] == Encoded(x) && ShardOf(Encoded(y))[3] == Encoded(y);
  }

  /** Where the payloads of these identifiers are kept. */
  ghost function Shards(ids: set<ObjectId>): set<Path> {
    set id | id in ids :: ShardOf(Encoded(id))
  }

  lemma OneMoreShard(ids: set<ObjectId>, id: ObjectId)
    requires AreUuids(ids) && id in ids
    ensures Shards(ids) == Shards(ids - {id}) + {ShardOf(Encoded(id))}
    ensures ShardOf(Encoded(id)) !in Shards(ids - {id})
  {
    assert ids == (ids - {id}) + {id};
    forall x | x in ids - {id} ensures ShardOf(Encoded(x)) != ShardOf(Encoded(id)) {
      ShardsDiffer(ids, x, id);
    }
  }

  /** There are as many such places as identifiers. */
  lemma {:induction false} OneShardEach(ids: set<ObjectId>)
    requires AreUuids(ids)
    ensures |Shards(ids)| == |ids|
  {
    if ids == {} {
      assert Shards(ids) == {};
    } else {
      var id :| id in ids;
      OneShardEach(ids - {id});
      OneMoreShard(ids, id);
    }
  }

  /** The places of the identifiers present are the referenced payload files. */
  lemma NamedFiles(t: Tree, ids: set<ObjectId>)
    requires Filed(t)
    ensures Shards(ids - Missing(t, ids)) == PayloadFiles(t) - Unreferenced(t, ids)
  {
    var present := ids - Missing(t, ids);
    forall p | p in Shards(present) ensures p in PayloadFiles(t) - Unreferenced(t, ids) {
      var id :| id in present && p == ShardOf(Encoded(id));
      assert Present(t, id) && p[|p| - 1] == Encoded(id) && p[0] == OBJECTS;
    }
    forall p | p in PayloadFiles(t) - Unreferenced(t, ids) ensures p in Shards(present) {
      var id :| id in ids && Encoded(id) == FileName(p);
      assert p == ShardOf(Encoded(id)) && Present(t, id);
    }
  }

  lemma SplitSize<T>(whole: set<T>, part: set<T>)
    requires part <= whole
    ensures |whole| == |part| + |whole - part|
  {
    assert whole == part + (whole - part);
  }

  /** Conservation: references less the missing, plus the unreferenced, is every payload file. */
  lemma PayloadsConserved(t: Tree, ids: set<ObjectId>)
    requires Filed(t) && AreUuids(ids)
    ensures |ids| - |Missing(t, ids)| + |Unreferenced(t, ids)| == |PayloadFiles(t)|
  {
    SplitSize(ids, Missing(t, ids));
    SplitSize(PayloadFiles(t), Unreferenced(t, ids));
    OneShardEach(ids - Missing(t, ids));
    NamedFiles(t, ids);
  }
}
