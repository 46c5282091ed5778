/**
 * The log analyzer of the day-1 tutorial: `analyze_logs` keeps the lines
 * that start with "IP:", takes the field after ": " from each, and counts
 * the fields with `collections.Counter`; plus `Counter.most_common(k)` and
 * the `word_lengths` dict comprehension.
 *
 * A Counter is modelled as a map from item to its (positive) count.
 */
module LogAnalyzer {
  import opened Common
  import opened Strings

  // ---------------------------------------------------------------------------
  // Counter
  // ---------------------------------------------------------------------------

  /** `Counter(items)`: each distinct item mapped to its number of occurrences. */
  function Count(items: seq<string>): (r: map<string, nat>)
    ensures forall x :: x in r <==> x in items
    ensures forall x :: x in r ==> r[x] == multiset(items)[x] && r[x] > 0
  {
    if items == [] then map[]
    else
      var init, last := items[..|items| - 1], items[|items| - 1];
      assert items == init + [last];
      var counts := Count(init);
      counts[last := (if last in counts then counts[last] else 0) + 1]
  }

  /** The sum of the counts of a Counter. */
  ghost function Total(m: map<string, nat>): nat
    decreases |m|
  {
    if m == map[] then 0
    else
      var k :| k in m;
      assert |m - {k}| < |m| by { assert (m - {k}).Keys == m.Keys - {k}; }
      m[k] + Total(m - {k})
  }

  /** The total can be taken apart at any key. */
  lemma {:induction false} TotalRemove(m: map<string, nat>, k: string)
    requires k in m
    ensures Total(m) == m[k] + Total(m - {k})
    decreases |m|
  {
    var j :| j in m && Total(m) == m[j] + Total(m - {j});
    if j != k {
      assert (m - {j}).Keys == m.Keys - {j};
      assert (m - {k}).Keys == m.Keys - {k};
      TotalRemove(m - {j}, k);
      TotalRemove(m - {k}, j);
      assert m - {j} - {k} == m - {k} - {j};
    }
  }

  /** Counting one more occurrence of x adds one to the total. */
  lemma TotalIncrement(m: map<string, nat>, x: string)
    ensures Total(m[x := (if x in m then m[x] else 0) + 1]) == Total(m) + 1
  {
    var bumped := m[x := (if x in m then m[x] else 0) + 1];
    TotalRemove(bumped, x);
    assert bumped - {x} == m - {x};
    if x in m {
      TotalRemove(m, x);
    } else {
      assert m - {x} == m;
    }
  }

  /** The counts of a Counter add up to the number of items counted. */
  lemma {:induction false} CountTotal(items: seq<string>)
    ensures Total(Count(items)) == |items|
  {
    if items != [] {
      var init, last := items[..|items| - 1], items[|items| - 1];
      CountTotal(init);
      TotalIncrement(Count(init), last);
    }
  }

  /** A Counter depends only on which items occur how often, not on their order. */
  lemma CountOrderFree(a: seq<string>, b: seq<string>)
    requires multiset(a) == multiset(b)
    ensures Count(a) == Count(b)
  {
    forall x ensures x in a <==> x in b {
      assert x in a <==> x in multiset(a);
      assert x in b <==> x in multiset(b);
    }
  }

  // ---------------------------------------------------------------------------
  // analyze_logs
  // ---------------------------------------------------------------------------

  /** The exception `analyze_logs` raises. */
  datatype LogError = IndexError

  /** `line.startswith("IP:")`. */
  predicate IsIpLine(line: string)
    ensures IsIpLine(line) <==> |line| >= 3 && line[0] == 'I' && line[1] == 'P' && line[2] == ':'
  {
    "IP:" <= line
  }

  /** `line.split(": ")[1]`, or IndexError when the line holds no ": ". */
  function IpField(line: string): (r: Result<string, LogError>)
    ensures r.Err? <==> NoOccurrence(line, ": ")
  {
    SplitSingle(line, ": ");
    var pieces := Split(line, ": ");
    if |pieces| < 2 then Err(IndexError) else Ok(pieces[1])
  }

  /**
   * With the first ": " at i, the field is the first piece of the text after
   * it: that text up to the next ": " or the end of the line (see
   * `SplitFirstPiece`).
   */
  lemma IpFieldAfterFirst(line: string, i: nat)
    requires OccursAt(line, ": ", i)
    requires forall j :: 0 <= j < i ==> !OccursAt(line, ": ", j)
    ensures IpField(line) == Ok(Split(line[i + 2..], ": ")[0])
  {
    FirstOccurrence(line, ": ", i);
    assert Split(line, ": ") == [line[..i]] + Split(line[i + 2..], ": ");
  }

  /** The lines that start with "IP:", in order. */
  function IpLines(lines: seq<string>): (r: seq<string>)
    ensures forall l :: l in r <==> l in lines && IsIpLine(l)
  {
    if lines == [] then []
    else (if IsIpLine(lines[0]) then [lines[0]] else []) + IpLines(lines[1..])
  }

  /**
   * The list comprehension of `analyze_logs`: the field of every "IP:" line,
   * in order, or IndexError when some "IP:" line has no ": ".
   */
  function ExtractIps(lines: seq<string>): (r: Result<seq<string>, LogError>)
    ensures r.Err? <==> exists l :: l in lines && IsIpLine(l) && NoOccurrence(l, ": ")
  {
    if lines == [] then Ok([])
    else
      var line := lines[0];
      assert forall l :: l in lines <==> l == line || l in lines[1..];
      if !IsIpLine(line) then ExtractIps(lines[1..])
      else
        match IpField(line)
        case Err(e) => Err(e)
        case Ok(ip) =>
          match ExtractIps(lines[1..])
          case Err(e) => Err(e)
          case Ok(rest) => Ok([ip] + rest)
  }

  /** On success the i-th extracted field is the field of the i-th "IP:" line. */
  lemma {:induction false} ExtractIpsFields(lines: seq<string>)
    requires ExtractIps(lines).Ok?
    ensures |ExtractIps(lines).value| == |IpLines(lines)|
    ensures forall k :: 0 <= k < |IpLines(lines)| ==> IpField(IpLines(lines)[k]) == Ok(ExtractIps(lines).value[k])
  {
    if lines != [] {
      var line, rest := lines[0], lines[1..];
      ExtractIpsFields(rest);
      var fields, tail := ExtractIps(lines).value, ExtractIps(rest).value;
      if IsIpLine(line) {
        assert IpLines(lines) == [line] + IpLines(rest);
        assert fields == [IpField(line).value] + tail;
        forall k | 0 <= k < |IpLines(lines)| ensures IpField(IpLines(lines)[k]) == Ok(fields[k]) {
          if k > 0 {
            assert IpLines(lines)[k] == IpLines(rest)[k - 1] && fields[k] == tail[k - 1];
          }
        }
      } else {
        assert IpLines(lines) == IpLines(rest) && fields == tail;
      }
    }
  }

  /** `analyze_logs(lines)`: the Counter of the IP fields, or IndexError. */
  function AnalyzeLogs(lines: seq<string>): (r: Result<map<string, nat>, LogError>)
    ensures r.Err? <==> exists l :: l in lines && IsIpLine(l) && NoOccurrence(l, ": ")
    ensures r.Ok? ==> forall ip :: ip in r.value ==> r.value[ip] > 0
  {
    match ExtractIps(lines)
    case Err(_) => Err(IndexError)
    case Ok(ips) => Ok(Count(ips))
  }

  /** How many "IP:" lines carry the field ip. */
  function LinesWithIp(lines: seq<string>, ip: string): nat
  {
    if lines == [] then 0
    else (if IsIpLine(lines[0]) && IpField(lines[0]) == Ok(ip) then 1 else 0) + LinesWithIp(lines[1..], ip)
  }

  lemma {:induction false} LinesWithIpAppend(a: seq<string>, b: seq<string>, ip: string)
    ensures LinesWithIp(a + b, ip) == LinesWithIp(a, ip) + LinesWithIp(b, ip)
  {
    if a == [] {
      assert a + b == b;
    } else {
      var head := if IsIpLine(a[0]) && IpField(a[0]) == Ok(ip) then 1 else 0;
      assert LinesWithIp(a + b, ip) == head + LinesWithIp(a[1..] + b, ip) by {
        assert (a + b)[0] == a[0];
        assert (a + b)[1..] == a[1..] + b;
      }
      LinesWithIpAppend(a[1..], b, ip);
    }
  }

  /** The extracted fields hold ip once per "IP:" line that carries it. */
  lemma {:induction false} ExtractIpsCounts(lines: seq<string>, ip: string)
    requires ExtractIps(lines).Ok?
    ensures multiset(ExtractIps(lines).value)[ip] == LinesWithIp(lines, ip)
  {
    if lines != [] {
      ExtractIpsCounts(lines[1..], ip);
    }
  }

  /**
   * Each IP is counted once per "IP:" line carrying it, every stored count is
   * positive, and the counts add up to the number of "IP:" lines.
   */
  lemma AnalyzeLogsCounts(lines: seq<string>)
    requires AnalyzeLogs(lines).Ok?
    ensures forall ip :: LinesWithIp(lines, ip) == if ip in AnalyzeLogs(lines).value then AnalyzeLogs(lines).value[ip] else 0
    ensures Total(AnalyzeLogs(lines).value) == |IpLines(lines)|
  {
    var ips := ExtractIps(lines).value;
    forall ip ensures LinesWithIp(lines, ip) == if ip in Count(ips) then Count(ips)[ip] else 0 {
      ExtractIpsCounts(lines, ip);
    }
    CountTotal(ips);
    ExtractIpsFields(lines);
  }

  /** Lines that do not start with "IP:" do not affect the result. */
  lemma {:induction false} OnlyIpLinesMatter(lines: seq<string>)
    ensures AnalyzeLogs(lines) == AnalyzeLogs(IpLines(lines))
  {
    ExtractIpsOfIpLines(lines);
  }

  lemma {:induction false} ExtractIpsOfIpLines(lines: seq<string>)
    ensures ExtractIps(lines) == ExtractIps(IpLines(lines))
  {
    if lines != [] {
      ExtractIpsOfIpLines(lines[1..]);
      if IsIpLine(lines[0]) {
        assert IpLines(lines) == [lines[0]] + IpLines(lines[1..]);
        assert IpLines(lines)[1..] == IpLines(lines[1..]);
      } else {
        assert IpLines(lines) == IpLines(lines[1..]);
      }
    }
  }

  /** The counts do not depend on the order of the log lines. */
  lemma AnalyzeLogsOrderFree(a: seq<string>, b: seq<string>)
    requires multiset(a) == multiset(b)
    ensures AnalyzeLogs(a) == AnalyzeLogs(b)
  {
    forall l ensures l in a <==> l in b {
      assert l in a <==> l in multiset(a);
      assert l in b <==> l in multiset(b);
    }
    if AnalyzeLogs(a).Ok? {
      assert AnalyzeLogs(b).Ok?;
      SameCounts(a, b);
    } else {
      var l :| l in a && IsIpLine(l) && NoOccurrence(l, ": ");
      assert l in b;
    }
  }

  lemma SameCounts(a: seq<string>, b: seq<string>)
    requires multiset(a) == multiset(b)
    requires AnalyzeLogs(a).Ok? && AnalyzeLogs(b).Ok?
    ensures AnalyzeLogs(a).value == AnalyzeLogs(b).value
  {
    var ma, mb := AnalyzeLogs(a).value, AnalyzeLogs(b).value;
    AnalyzeLogsCounts(a);
    AnalyzeLogsCounts(b);
    forall ip ensures (ip in ma <==> ip in mb) && (ip in ma ==> ma[ip] == mb[ip]) {
      LinesWithIpOrderFree(a, b, ip);
      assert LinesWithIp(a, ip) == if ip in ma then ma[ip] else 0;
      assert LinesWithIp(b, ip) == if ip in mb then mb[ip] else 0;
    }
  }

  lemma {:induction false} LinesWithIpOrderFree(a: seq<string>, b: seq<string>, ip: string)
    requires multiset(a) == multiset(b)
    ensures LinesWithIp(a, ip) == LinesWithIp(b, ip)
    decreases |a|
  {
    if a == [] {
      assert b == [] by { assert |multiset(b)| == 0; }
    } else {
      var j := RemoveOne(a, b);
      LinesWithIpOrderFree(a[1..], b[..j] + b[j + 1..], ip);
      LinesWithIpRemove(b, j, ip);
      LinesWithIpAppend([a[0]], a[1..], ip);
      assert [a[0]] + a[1..] == a;
    }
  }

  /** The lines with ip are those of b[j] plus those of b without it. */
  lemma LinesWithIpRemove(b: seq<string>, j: nat, ip: string)
    requires j < |b|
    ensures LinesWithIp(b, ip) == LinesWithIp([b[j]], ip) + LinesWithIp(b[..j] + b[j + 1..], ip)
  {
    LinesWithIpAppend(b[..j], b[j + 1..], ip);
    LinesWithIpAppend(b[..j], [b[j]] + b[j + 1..], ip);
    LinesWithIpAppend([b[j]], b[j + 1..], ip);
    assert b[..j] + ([b[j]] + b[j + 1..]) == b;
  }

  /** Taking the same element out of two permutations of each other leaves permutations. */
  lemma RemoveOne(a: seq<string>, b: seq<string>) returns (j: nat)
    requires multiset(a) == multiset(b) && a != []
    ensures j < |b| && b[j] == a[0]
    ensures multiset(a[1..]) == multiset(b[..j] + b[j + 1..])
  {
    j := IndexOf(b, a[0]);
    calc {
      multiset(a[1..]);
    == { MultisetWithout(a, 0); assert a[..0] + a[1..] == a[1..]; }
      multiset(a) - multiset{a[0]};
    == { assert b[j] == a[0]; }
      multiset(b) - multiset{b[j]};
    == { MultisetWithout(b, j); }
      multiset(b[..j] + b[j + 1..]);
    }
  }

  /** An element of the multiset of s sits at some position of s. */
  lemma IndexOf(s: seq<string>, x: string) returns (j: nat)
    requires x in multiset(s)
    ensures j < |s| && s[j] == x
  {
    assert x in s;
    j :| 0 <= j < |s| && s[j] == x;
  }

  /** Dropping position j removes one copy of s[j] from the multiset of s. */
  lemma MultisetWithout(s: seq<string>, j: nat)
    requires j < |s|
    ensures multiset(s[..j] + s[j + 1..]) == multiset(s) - multiset{s[j]}
  {
    assert s == s[..j] + [s[j]] + s[j + 1..];
    assert multiset(s) == multiset(s[..j] + s[j + 1..]) + multiset{s[j]};
  }

  /** A line "IP: " followed by a field without ':' yields that field. */
  lemma IpFieldOfSimpleLine(line: string, field: string)
    requires line == "IP: " + field && ':' !in field
    ensures IpField(line) == Ok(field)
  {
    forall j | 0 <= j <= |field| ensures !OccursAt(field, ": ", j) {
      if j + 2 <= |field| {
        assert field[j..j + 2][0] == field[j] != ':';
      }
    }
    assert line[2..4] == ": ";
    assert !OccursAt(line, ": ", 0) by { assert line[0] == 'I'; }
    assert !OccursAt(line, ": ", 1) by { assert line[1] == 'P'; }
    FirstOccurrence(line, ": ", 2);
    assert line[4..] == field;
    SplitSingle(field, ": ");
    assert Split(line, ": ") == [line[..2]] + Split(field, ": ");
  }

  /**
   * The sample log of the module's demo: five "IP:" lines carrying the first
   * address three times and the other two once each, for any three distinct
   * addresses free of ':'.
   */
  lemma SampleLog(x: string, y: string, z: string)
    requires ':' !in x && ':' !in y && ':' !in z
    requires x != y && y != z && x != z
    ensures AnalyzeLogs(["IP: " + x, "IP: " + y, "IP: " + x, "IP: " + z, "IP: " + x])
         == Ok(map[x := 3, y := 1, z := 1])
  {
    SampleIps(x, y, z);
    SampleCount(x, y, z);
  }

  /** One "IP:" line with a field in front of the fields of the rest. */
  lemma ExtractIpsCons(line: string, field: string, rest: seq<string>, fields: seq<string>)
    requires line == "IP: " + field && ':' !in field
    requires ExtractIps(rest) == Ok(fields)
    ensures ExtractIps([line] + rest) == Ok([field] + fields)
  {
    IpFieldOfSimpleLine(line, field);
    assert IsIpLine(line);
    assert ([line] + rest)[0] == line && ([line] + rest)[1..] == rest;
  }

  /** The IP fields of the last three sample lines. */
  lemma SampleTailIps(x: string, z: string)
    requires ':' !in x && ':' !in z
    ensures ExtractIps(["IP: " + x, "IP: " + z, "IP: " + x]) == Ok([x, z, x])
  {
    var a, c := "IP: " + x, "IP: " + z;
    ExtractIpsCons(a, x, [], []);
    assert [a] + [] == [a] && [x] + [] == [x];
    ExtractIpsCons(c, z, [a], [x]);
    assert [c] + [a] == [c, a] && [z] + [x] == [z, x];
    ExtractIpsCons(a, x, [c, a], [z, x]);
    assert [a] + [c, a] == [a, c, a] && [x] + [z, x] == [x, z, x];
  }

  /** The IP fields of the sample log. */
  lemma SampleIps(x: string, y: string, z: string)
    requires ':' !in x && ':' !in y && ':' !in z
    ensures ExtractIps(["IP: " + x, "IP: " + y, "IP: " + x, "IP: " + z, "IP: " + x]) == Ok([x, y, x, z, x])
  {
    var a, b, c := "IP: " + x, "IP: " + y, "IP: " + z;
    SampleTailIps(x, z);
    ExtractIpsCons(b, y, [a, c, a], [x, z, x]);
    assert [b] + [a, c, a] == [b, a, c, a] && [y] + [x, z, x] == [y, x, z, x];
    ExtractIpsCons(a, x, [b, a, c, a], [y, x, z, x]);
    assert [a] + [b, a, c, a] == [a, b, a, c, a] && [x] + [y, x, z, x] == [x, y, x, z, x];
  }

  /** Counting the five sample fields. */
  lemma SampleCount(x: string, y: string, z: string)
    requires x != y && y != z && x != z
    ensures Count([x, y, x, z, x]) == map[x := 3, y := 1, z := 1]
  {
    var ips := [x, y, x, z, x];
    assert multiset(ips) == multiset{x, x, x, y, z};
    ThreeKeys(Count(ips), ips, x, y, z);
  }

  /** A map that holds the counts of five items x, y, x, z, x is the map of their counts. */
  lemma ThreeKeys(counts: map<string, nat>, ips: seq<string>, x: string, y: string, z: string)
    requires x != y && y != z && x != z
    requires ips == [x, y, x, z, x] && multiset(ips) == multiset{x, x, x, y, z}
    requires forall w :: w in counts <==> w in ips
    requires forall w :: w in counts ==> counts[w] == multiset(ips)[w]
    ensures counts == map[x := 3, y := 1, z := 1]
  {
    assert counts.Keys == {x, y, z};
  }

  // ---------------------------------------------------------------------------
  // Counter.most_common
  // ---------------------------------------------------------------------------

  /** The distinct items in order of first appearance: the key order of a Counter. */
  function FirstSeen(items: seq<string>): (r: seq<string>)
    ensures |r| <= |items|
  {
    if items == [] then []
    else
      var earlier, last := FirstSeen(items[..|items| - 1]), items[|items| - 1];
      if last in earlier then earlier else earlier + [last]
  }

  /** The key order lists every item exactly once. */
  lemma {:induction false} FirstSeenKeys(items: seq<string>)
    ensures forall x :: x in FirstSeen(items) <==> x in items
    ensures forall i, j :: 0 <= i < j < |FirstSeen(items)| ==> FirstSeen(items)[i] != FirstSeen(items)[j]
  {
    if items != [] {
      var init, last := items[..|items| - 1], items[|items| - 1];
      FirstSeenKeys(init);
      assert items == init + [last];
    }
  }

  /**
   * The key order is the order of first appearance: every prefix of items
   * that holds a later key also holds each earlier one.
   */
  lemma {:induction false} FirstSeenOrder(items: seq<string>)
    ensures forall i, j, m :: 0 <= i < j < |FirstSeen(items)| && 0 <= m <= |items| && FirstSeen(items)[j] in items[..m] ==>
              FirstSeen(items)[i] in items[..m]
  {
    if items != [] {
      var init, last := items[..|items| - 1], items[|items| - 1];
      var keys, earlier := FirstSeen(items), FirstSeen(init);
      FirstSeenOrder(init);
      FirstSeenKeys(init);
      FirstSeenKeys(items);
      forall i, j, m | 0 <= i < j < |keys| && 0 <= m <= |items| && keys[j] in items[..m]
        ensures keys[i] in items[..m]
      {
        if m == |items| {
          assert items[..m] == items;
        } else {
          assert items[..m] == init[..m];
          assert keys[j] in init;
          assert j < |earlier| && keys[i] == earlier[i] && keys[j] == earlier[j];
        }
      }
    }
  }

  /** `Counter(items).items()`: (item, count) pairs in first-seen order. */
  function Entries(items: seq<string>): (r: seq<(string, nat)>)
    ensures |r| == |FirstSeen(items)|
    ensures forall i :: 0 <= i < |r| ==> r[i] == (FirstSeen(items)[i], multiset(items)[FirstSeen(items)[i]])
  {
    var keys, counts := FirstSeen(items), Count(items);
    FirstSeenKeys(items);
    seq(|keys|, i requires 0 <= i < |keys| => (keys[i], counts[keys[i]]))
  }

  /** Counts never increase along the sequence. */
  predicate Descending(s: seq<(string, nat)>)
  {
    forall i, j :: 0 <= i < j < |s| ==> s[i].1 >= s[j].1
  }

  /** Inserts e before the first entry whose count is not larger than e's. */
  function InsertByCount(e: (string, nat), sorted: seq<(string, nat)>): (r: seq<(string, nat)>)
    ensures multiset(r) == multiset(sorted) + multiset{e}
  {
    if sorted == [] || sorted[0].1 <= e.1 then [e] + sorted
    else
      assert sorted == [sorted[0]] + sorted[1..];
      [sorted[0]] + InsertByCount(e, sorted[1..])
  }

  /** Inserting into a sequence sorted by descending count keeps it sorted. */
  lemma {:induction false} InsertByCountDescending(e: (string, nat), sorted: seq<(string, nat)>)
    requires Descending(sorted)
    ensures Descending(InsertByCount(e, sorted))
  {
    if !(sorted == [] || sorted[0].1 <= e.1) {
      InsertByCountDescending(e, sorted[1..]);
      InsertByCountBounded(e, sorted[1..], sorted[0].1);
    }
  }

  /** An insertion keeps every count within a bound that e and all entries respect. */
  lemma {:induction false} InsertByCountBounded(e: (string, nat), s: seq<(string, nat)>, bound: nat)
    requires e.1 <= bound && forall k :: 0 <= k < |s| ==> s[k].1 <= bound
    ensures forall k :: 0 <= k < |InsertByCount(e, s)| ==> InsertByCount(e, s)[k].1 <= bound
  {
    if !(s == [] || s[0].1 <= e.1) {
      InsertByCountBounded(e, s[1..], bound);
    }
  }

  /** `sorted(entries, key=count, reverse=True)`: a stable sort by descending count. */
  function SortByCount(entries: seq<(string, nat)>): (r: seq<(string, nat)>)
    ensures multiset(r) == multiset(entries)
    ensures Descending(r)
  {
    if entries == [] then []
    else
      assert entries == [entries[0]] + entries[1..];
      InsertByCountDescending(entries[0], SortByCount(entries[1..]));
      InsertByCount(entries[0], SortByCount(entries[1..]))
  }

  /** The entries whose count is c, in order. */
  function WithCount(s: seq<(string, nat)>, c: nat): seq<(string, nat)>
  {
    if s == [] then []
    else (if s[0].1 == c then [s[0]] else []) + WithCount(s[1..], c)
  }

  lemma {:induction false} WithCountInsert(e: (string, nat), sorted: seq<(string, nat)>, c: nat)
    ensures WithCount(InsertByCount(e, sorted), c) == (if e.1 == c then [e] else []) + WithCount(sorted, c)
  {
    if sorted == [] || sorted[0].1 <= e.1 {
      WithCountCons(e, sorted, c);
    } else {
      var head, rest := sorted[0], InsertByCount(e, sorted[1..]);
      WithCountInsert(e, sorted[1..], c);
      WithCountCons(head, rest, c);
      WithCountCons(head, sorted[1..], c);
      assert [head] + sorted[1..] == sorted;
    }
  }

  lemma WithCountCons(e: (string, nat), s: seq<(string, nat)>, c: nat)
    ensures WithCount([e] + s, c) == (if e.1 == c then [e] else []) + WithCount(s, c)
  {
    assert ([e] + s)[1..] == s;
  }

  /** The sort is stable: entries with equal counts keep their relative order. */
  lemma {:induction false} SortByCountStable(entries: seq<(string, nat)>, c: nat)
    ensures WithCount(SortByCount(entries), c) == WithCount(entries, c)
  {
    if entries != [] {
      SortByCountStable(entries[1..], c);
      WithCountInsert(entries[0], SortByCount(entries[1..]), c);
    }
  }

  /** `Counter(items).most_common(k)`: the k entries of highest count; none when k <= 0. */
  function MostCommon(items: seq<string>, k: int): (r: seq<(string, nat)>)
    ensures |r| == if k <= 0 then 0 else if k < |FirstSeen(items)| then k else |FirstSeen(items)|
    ensures Descending(r)
  {
    var sorted := SortByCount(Entries(items));
    assert |sorted| == |multiset(sorted)| == |Entries(items)|;
    if k <= 0 then [] else if k < |sorted| then sorted[..k] else sorted
  }

  /** The first entries of the sorted Counter, as many as most_common(k) returns. */
  lemma MostCommonPrefix(items: seq<string>, k: int)
    ensures MostCommon(items, k) <= SortByCount(Entries(items))
  {
    var sorted := SortByCount(Entries(items));
    if k <= 0 {
      assert MostCommon(items, k) == [];
    } else if k < |sorted| {
      assert MostCommon(items, k) == sorted[..k];
    } else {
      assert MostCommon(items, k) == sorted;
    }
  }

  /** Every entry most_common(k) returns is an item paired with its number of occurrences. */
  lemma MostCommonEntries(items: seq<string>, k: int)
    ensures forall i :: 0 <= i < |MostCommon(items, k)| ==>
              MostCommon(items, k)[i].0 in items &&
              MostCommon(items, k)[i].1 == multiset(items)[MostCommon(items, k)[i].0]
  {
    var entries := Entries(items);
    var sorted := SortByCount(entries);
    var r := MostCommon(items, k);
    MostCommonPrefix(items, k);
    FirstSeenKeys(items);
    forall i | 0 <= i < |r|
      ensures r[i].0 in items && r[i].1 == multiset(items)[r[i].0]
    {
      assert r[i] == sorted[i];
      assert sorted[i] in multiset(entries);
    }
  }

  /** Every item most_common(k) leaves out occurs at most as often as every item it returns. */
  lemma MostCommonIsTop(items: seq<string>, k: int)
    ensures forall x, i ::
              (x in items && 0 <= i < |MostCommon(items, k)| &&
               forall j :: 0 <= j < |MostCommon(items, k)| ==> MostCommon(items, k)[j].0 != x)
              ==> multiset(items)[x] <= MostCommon(items, k)[i].1
  {
    var r := MostCommon(items, k);
    forall x, i | x in items && 0 <= i < |r| && (forall j :: 0 <= j < |r| ==> r[j].0 != x)
      ensures multiset(items)[x] <= r[i].1
    {
      LeftOutIsSmaller(items, k, x, i);
    }
  }

  /** The step of MostCommonIsTop for one item left out and one entry returned. */
  lemma LeftOutIsSmaller(items: seq<string>, k: int, x: string, i: nat)
    requires x in items && i < |MostCommon(items, k)|
    requires forall j :: 0 <= j < |MostCommon(items, k)| ==> MostCommon(items, k)[j].0 != x
    ensures multiset(items)[x] <= MostCommon(items, k)[i].1
  {
    var entries := Entries(items);
    var sorted := SortByCount(entries);
    var r := MostCommon(items, k);
    MostCommonPrefix(items, k);
    FirstSeenKeys(items);
    var p :| 0 <= p < |FirstSeen(items)| && FirstSeen(items)[p] == x;
    assert entries[p] in multiset(sorted);
    var q :| 0 <= q < |sorted| && sorted[q] == entries[p];
    assert q >= |r|;
    assert r[i] == sorted[i];
  }

  /** Ties are broken by first appearance: most_common keeps the Counter's order within a count. */
  lemma MostCommonTies(items: seq<string>, k: int, c: nat)
    ensures WithCount(MostCommon(items, k), c) <= WithCount(Entries(items), c)
  {
    MostCommonPrefix(items, k);
    SortByCountStable(Entries(items), c);
    WithCountPrefix(MostCommon(items, k), SortByCount(Entries(items)), c);
  }

  /** The entries of a prefix with a given count are a prefix of those of the whole. */
  lemma WithCountPrefix(a: seq<(string, nat)>, b: seq<(string, nat)>, c: nat)
    requires a <= b
    ensures WithCount(a, c) <= WithCount(b, c)
  {
    assert b == a + b[|a|..];
    WithCountAppend(a, b[|a|..], c);
  }

  lemma {:induction false} WithCountAppend(a: seq<(string, nat)>, b: seq<(string, nat)>, c: nat)
    ensures WithCount(a + b, c) == WithCount(a, c) + WithCount(b, c)
  {
    if a == [] {
      assert a + b == b;
    } else {
      var head := if a[0].1 == c then [a[0]] else [];
      assert WithCount(a + b, c) == head + WithCount(a[1..] + b, c) by {
        assert (a + b)[0] == a[0];
        assert (a + b)[1..] == a[1..] + b;
      }
      WithCountAppend(a[1..], b, c);
    }
  }

  /**
   * The example of the module's demo: in a list holding one fruit three times,
   * a second twice and a third once, the two most common are the first (3)
   * and the second (2).
   */
  lemma FruitExample(a: string, b: string, c: string)
    requires a != b && b != c && a != c
    ensures MostCommon([a, b, a, c, b, a], 2) == [(a, 3), (b, 2)]
  {
    FruitEntries(a, b, c);
    FruitSorted(a, b, c);
  }

  lemma FruitSorted(a: string, b: string, c: string)
    ensures SortByCount([(a, 3), (b, 2), (c, 1)]) == [(a, 3), (b, 2), (c, 1)]
  {
    var entries := [(a, 3), (b, 2), (c, 1)];
    assert entries[1..] == [(b, 2), (c, 1)] && entries[1..][1..] == [(c, 1)];
    assert SortByCount([(c, 1)]) == [(c, 1)];
    assert SortByCount([(b, 2), (c, 1)]) == [(b, 2), (c, 1)];
  }

  lemma FruitEntries(a: string, b: string, c: string)
    requires a != b && b != c && a != c
    ensures Entries([a, b, a, c, b, a]) == [(a, 3), (b, 2), (c, 1)]
  {
    var items := [a, b, a, c, b, a];
    FruitFirstSeen(a, b, c);
    assert multiset(items)[a] == 3;
    assert multiset(items)[b] == 2;
    assert multiset(items)[c] == 1;
  }

  lemma FruitFirstSeen(a: string, b: string, c: string)
    requires a != b && b != c && a != c
    ensures FirstSeen([a, b, a, c, b, a]) == [a, b, c]
  {
    FruitFirstSeenPrefix(a, b);
    assert FirstSeen([a, b, a, c]) == [a, b, c] by {
      FirstSeenSnoc([a, b, a], c);
      assert [a, b, a] + [c] == [a, b, a, c] && [a, b] + [c] == [a, b, c];
    }
    assert FirstSeen([a, b, a, c, b]) == [a, b, c] by {
      FirstSeenSnoc([a, b, a, c], b);
      assert [a, b, a, c] + [b] == [a, b, a, c, b];
    }
    FirstSeenSnoc([a, b, a, c, b], a);
    assert [a, b, a, c, b] + [a] == [a, b, a, c, b, a];
  }

  lemma FruitFirstSeenPrefix(a: string, b: string)
    requires a != b
    ensures FirstSeen([a, b, a]) == [a, b]
  {
    assert FirstSeen([a]) == [a] by {
      FirstSeenSnoc([], a);
      assert [] + [a] == [a];
    }
    assert FirstSeen([a, b]) == [a, b] by {
      FirstSeenSnoc([a], b);
      assert [a] + [b] == [a, b];
    }
    FirstSeenSnoc([a, b], a);
    assert [a, b] + [a] == [a, b, a];
  }

  /** One more item is appended to the key order unless it was seen before. */
  lemma FirstSeenSnoc(items: seq<string>, item: string)
    ensures FirstSeen(items + [item]) == if item in FirstSeen(items) then FirstSeen(items) else FirstSeen(items) + [item]
  {
    assert (items + [item])[..|items|] == items;
  }

  // ---------------------------------------------------------------------------
  // word_lengths
  // ---------------------------------------------------------------------------

  /** `{word: len(word) for word in words}`. */
  function WordLengths(words: seq<string>): (r: map<string, nat>)
    ensures forall w :: w in r <==> w in words
    ensures forall w :: w in r ==> r[w] == |w|
  {
    if words == [] then map[]
    else
      var last := words[|words| - 1];
      assert words == words[..|words| - 1] + [last];
      WordLengths(words[..|words| - 1])[last := |last|]
  }

  /** The example: hello and world have 5 letters, python 6. */
  lemma WordLengthsExample()
    ensures WordLengths(["hello", "world", "python"]) == map["hello" := 5, "world" := 5, "python" := 6]
  {
  }
}
