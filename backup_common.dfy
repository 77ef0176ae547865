/** What the three `backupFileSync` variants share: the date stamp of
    `getFormattedDate` (src/commands/file/backup-file/backupFileSync.ts and
    src/old/file-helpers/backupFileSync.ts hold the same function) and the
    rule by which a naming loop settles on a candidate. */
module BackupCommon {
  import opened Text

  /** The fields a `Date` reports in local time; `month` is `getMonth()`,
      counting from 0. */
  datatype Moment = Moment(year: int, month: nat, day: nat, hours: nat, minutes: nat, seconds: nat, milliseconds: nat)

  predicate ValidMoment(m: Moment)
  {
    m.month < 12 && 1 <= m.day <= 31 && m.hours < 24 && m.minutes < 60 && m.seconds < 60 && m.milliseconds < 1000
  }

  /** `n.toString().padStart(w, '0')` */
  function Padded(n: nat, w: nat): (s: string)
    ensures AllDigits(s)
    ensures |s| >= w
  {
    var digits := NatToString(n);
    NatToStringDigits(n);
    LeadingZeros(if |digits| >= w then 0 else w - |digits|, digits);
    assert |digits| < w ==> PadStart(digits, w, '0') == Repeat('0', w - |digits|) + digits;
    assert |digits| >= w ==> Repeat('0', 0) + digits == digits;
    PadStart(digits, w, '0')
  }

  /** `getFormattedDate`: the year, then month, day, hours, minutes and
      seconds in two digits and milliseconds in three. */
  function FormattedDate(m: Moment): (s: string)
    ensures |s| >= 14
    ensures '/' !in s
  {
    var widths: seq<(nat, nat)> := [(m.month + 1, 2), (m.day, 2), (m.hours, 2), (m.minutes, 2), (m.seconds, 2), (m.milliseconds, 3)];
    var s := IntToString(m.year) + PaddedFields(widths);
    SixFields(m.month + 1, m.day, m.hours, m.minutes, m.seconds, m.milliseconds);
    PaddedLength(m.month + 1, m.day, m.hours, m.minutes, m.seconds, m.milliseconds);
    NoSlashInInt(m.year);
    NoSlashInDigits(PaddedFields(widths));
    s
  }

  /** Each field zero-padded to its width, one after the other. */
  function PaddedFields(fields: seq<(nat, nat)>): (s: string)
    ensures AllDigits(s)
  {
    if fields == [] then ""
    else
      var rest := PaddedFields(fields[1..]);
      DigitsConcat(Padded(fields[0].0, fields[0].1), rest);
      Padded(fields[0].0, fields[0].1) + rest
  }

  lemma SixFields(a: nat, b: nat, c: nat, d: nat, e: nat, f: nat)
    ensures PaddedFields([(a, 2), (b, 2), (c, 2), (d, 2), (e, 2), (f, 3)])
            == Padded(a, 2) + Padded(b, 2) + Padded(c, 2) + Padded(d, 2) + Padded(e, 2) + Padded(f, 3)
  {
    PaddedFieldsCons((f, 3), []);
    PaddedFieldsCons((e, 2), [(f, 3)]);
    PaddedFieldsCons((d, 2), [(e, 2), (f, 3)]);
    PaddedFieldsCons((c, 2), [(d, 2), (e, 2), (f, 3)]);
    PaddedFieldsCons((b, 2), [(c, 2), (d, 2), (e, 2), (f, 3)]);
    PaddedFieldsCons((a, 2), [(b, 2), (c, 2), (d, 2), (e, 2), (f, 3)]);
    Reassociate(Padded(a, 2), Padded(b, 2), Padded(c, 2), Padded(d, 2), Padded(e, 2), Padded(f, 3));
  }

  lemma PaddedLength(a: nat, b: nat, c: nat, d: nat, e: nat, f: nat)
    ensures |Padded(a, 2) + Padded(b, 2) + Padded(c, 2) + Padded(d, 2) + Padded(e, 2) + Padded(f, 3)| >= 13
  {
  }

  lemma PaddedFieldsCons(field: (nat, nat), rest: seq<(nat, nat)>)
    ensures PaddedFields([field] + rest) == Padded(field.0, field.1) + PaddedFields(rest)
  {
    assert ([field] + rest)[1..] == rest;
  }

  lemma Reassociate(a: string, b: string, c: string, d: string, e: string, f: string)
    ensures a + (b + (c + (d + (e + (f + ""))))) == a + b + c + d + e + f
  {
    assert f + "" == f;
  }

  lemma NoSlashInDigits(s: string)
    requires AllDigits(s)
    ensures '/' !in s
  {
    forall i | 0 <= i < |s|
      ensures s[i] != '/'
    {
      assert IsDigit(s[i]);
    }
  }

  lemma NoSlashInInt(i: int)
    ensures '/' !in IntToString(i)
  {
    NatToStringDigits(if i < 0 then -i else i);
    NoSlashInDigits(NatToString(if i < 0 then -i else i));
  }

  /** The stamp of a valid moment reads back field by field: the year's
      text comes first and the last thirteen characters are the other six
      fields, zero-padded. */
  lemma FormattedDateFields(m: Moment)
    requires ValidMoment(m)
    ensures StampReadsBack(FormattedDate(m), m)
  {
    PaddedValue(m.month + 1, 2);
    PaddedValue(m.day, 2);
    PaddedValue(m.hours, 2);
    PaddedValue(m.minutes, 2);
    PaddedValue(m.seconds, 2);
    PaddedValue(m.milliseconds, 3);
    SixFields(m.month + 1, m.day, m.hours, m.minutes, m.seconds, m.milliseconds);
    Fields(IntToString(m.year), Padded(m.month + 1, 2), Padded(m.day, 2), Padded(m.hours, 2),
           Padded(m.minutes, 2), Padded(m.seconds, 2), Padded(m.milliseconds, 3), m);
  }

  /** The year's text comes first and the last thirteen characters are the
      other six fields, zero-padded. */
  predicate StampReadsBack(s: string, m: Moment)
  {
    var n := |s|;
    && n >= 13
    && s[..n - 13] == IntToString(m.year)
    && AllDigits(s[n - 13..])
    && DecimalValue(s[n - 13..n - 11]) == m.month + 1
    && DecimalValue(s[n - 11..n - 9]) == m.day
    && DecimalValue(s[n - 9..n - 7]) == m.hours
    && DecimalValue(s[n - 7..n - 5]) == m.minutes
    && DecimalValue(s[n - 5..n - 3]) == m.seconds
    && DecimalValue(s[n - 3..]) == m.milliseconds
  }

  lemma PaddedValue(n: nat, w: nat)
    requires (w == 2 && n < 100) || (w == 3 && n < 1000)
    ensures |Padded(n, w)| == w && DecimalValue(Padded(n, w)) == n
  {
    assert Pow10(2) == 100 && Pow10(3) == 1000;
    PaddedDecimal(n, w);
  }

  lemma Fields(y: string, a: string, b: string, c: string, d: string, e: string, f: string, m: Moment)
    requires |a| == 2 && |b| == 2 && |c| == 2 && |d| == 2 && |e| == 2 && |f| == 3
    requires AllDigits(a) && AllDigits(b) && AllDigits(c) && AllDigits(d) && AllDigits(e) && AllDigits(f)
    requires y == IntToString(m.year)
    requires DecimalValue(a) == m.month + 1 && DecimalValue(b) == m.day && DecimalValue(c) == m.hours
    requires DecimalValue(d) == m.minutes && DecimalValue(e) == m.seconds && DecimalValue(f) == m.milliseconds
    ensures StampReadsBack(y + (a + b + c + d + e + f), m)
  {
    Slices(y, a, b, c, d, e, f);
    DigitsConcat(a, b);
    DigitsConcat(a + b, c);
    DigitsConcat(a + b + c, d);
    DigitsConcat(a + b + c + d, e);
    DigitsConcat(a + b + c + d + e, f);
  }

  lemma DigitsConcat(x: string, z: string)
    requires AllDigits(x) && AllDigits(z)
    ensures AllDigits(x + z)
  {
    assert forall i :: |x| <= i < |x + z| ==> (x + z)[i] == z[i - |x|];
  }

  lemma Slices(y: string, a: string, b: string, c: string, d: string, e: string, f: string)
    requires |a| == 2 && |b| == 2 && |c| == 2 && |d| == 2 && |e| == 2 && |f| == 3
    ensures var s := y + (a + b + c + d + e + f);
            var n := |s|;
            && n >= 13
            && s[..n - 13] == y && s[n - 13..] == a + b + c + d + e + f
            && s[n - 13..n - 11] == a && s[n - 11..n - 9] == b && s[n - 9..n - 7] == c
            && s[n - 7..n - 5] == d && s[n - 5..n - 3] == e && s[n - 3..] == f
  {
    var s := y + (a + b + c + d + e + f);
    var n := |s|;
    var tail := a + b + c + d + e + f;
    assert s[n - 13..] == tail;
    assert tail[..2] == a && tail[2..4] == b && tail[4..6] == c && tail[6..8] == d && tail[8..10] == e && tail[10..] == f;
  }

  // ---------------------------------------------------------------------
  // choosing a candidate

  /** The candidate a naming loop settles on, given which of its candidates
      are taken: the first free one, or the last when all are taken. */
  function FirstFree(taken: seq<bool>): (k: nat)
    requires |taken| >= 1
    ensures k < |taken|
    ensures forall j :: 0 <= j < k ==> taken[j]
    ensures !taken[k] || k == |taken| - 1
  {
    if !taken[0] || |taken| == 1 then 0 else 1 + FirstFree(taken[1..])
  }

  /** The two properties above pin the choice down. */
  lemma {:induction false} FirstFreeUnique(taken: seq<bool>, k: nat)
    requires k < |taken|
    requires forall j :: 0 <= j < k ==> taken[j]
    requires !taken[k] || k == |taken| - 1
    ensures FirstFree(taken) == k
  {
    if k > 0 {
      assert taken[0];
      FirstFreeUnique(taken[1..], k - 1);
    }
  }

  /** When some candidate is free, the chosen one is free. */
  lemma FreeWhenAnyFree(taken: seq<bool>, j: nat)
    requires j < |taken| && !taken[j]
    ensures !taken[FirstFree(taken)]
  {
  }

  lemma TakenStep(taken: seq<bool>, c: nat)
    requires c < |taken| && taken[c]
    requires forall j :: 0 <= j < c ==> taken[j]
    ensures forall j :: 0 <= j < c + 1 ==> taken[j]
  {
  }
}
