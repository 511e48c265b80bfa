/**
 * The key-name table of keys.c: a table indexed by key code, filled from
 * one blob of NUL-terminated names (the generated keynames.h), a lookup
 * by name that upper-cases its argument in place, and a lookup by code.
 */
module KeyNames {
  import opened Opt

  /** KEY_MAX of the Linux input event codes; the table has this many
      entries, indices 0 to KEY_MAX - 1. */
  const KEY_MAX: int := 0x2ff

  const NUL: char := 0 as char

  /** strlen of the C string that starts at offset i of s: the distance to
      the first NUL at or after i (to the end of s when there is none, which
      a C string never reaches). */
  function StrLen(s: seq<char>, i: nat): (n: nat)
    requires i <= |s|
    ensures i + n <= |s|
    decreases |s| - i
  {
    if i == |s| || s[i] == NUL then 0 else 1 + StrLen(s, i + 1)
  }

  /** strlen counts the characters before the first NUL, and stops at that
      NUL when there is one. */
  lemma {:induction false} StrLenStopsAtNul(s: seq<char>, i: nat)
    requires i <= |s|
    ensures var n := StrLen(s, i);
      && (forall j :: i <= j < i + n ==> s[j] != NUL)
      && (i + n < |s| ==> s[i + n] == NUL)
    decreases |s| - i
  {
    if i < |s| && s[i] != NUL {
      StrLenStopsAtNul(s, i + 1);
    }
  }

  /** strlen is determined by where the first NUL is. */
  lemma {:induction false} StrLenOf(s: seq<char>, i: nat, n: nat)
    requires i + n < |s| && s[i + n] == NUL
    requires forall j :: i <= j < i + n ==> s[j] != NUL
    ensures StrLen(s, i) == n
    decreases n
  {
    if n > 0 {
      StrLenOf(s, i + 1, n - 1);
    }
  }

  /** The C string held by a character buffer. */
  function CStr(s: seq<char>): string {
    s[..StrLen(s, 0)]
  }

  /** The C string a pointer at offset p into the blob reads (empty for a
      pointer past the blob). */
  function NameAt(blob: seq<char>, p: nat): string {
    if p <= |blob| then blob[p..p + StrLen(blob, p)] else []
  }

  /** The offsets init_keynames visits from idx on, one per C string of the
      blob, as it steps with idx += strlen + 1. */
  function Starts(blob: seq<char>, idx: nat): seq<nat>
    decreases |blob| - idx
  {
    if idx >= |blob| then []
    else [idx] + Starts(blob, idx + StrLen(blob, idx) + 1)
  }

  /** The names the blob holds from idx on, in the same walk. */
  function Entries(blob: seq<char>, idx: nat): seq<string>
    decreases |blob| - idx
  {
    if idx >= |blob| then []
    else [NameAt(blob, idx)] + Entries(blob, idx + StrLen(blob, idx) + 1)
  }

  /** Each offset of the walk lies inside the blob, and the name at the
      k-th offset is the k-th name. */
  lemma {:induction false} StartsName(blob: seq<char>, idx: nat)
    ensures |Starts(blob, idx)| == |Entries(blob, idx)|
    ensures forall k :: 0 <= k < |Starts(blob, idx)| ==>
      idx <= Starts(blob, idx)[k] < |blob| && NameAt(blob, Starts(blob, idx)[k]) == Entries(blob, idx)[k]
    decreases |blob| - idx
  {
    if idx < |blob| {
      StartsName(blob, idx + StrLen(blob, idx) + 1);
    }
  }

  /** The blob a list of names is written as: each name followed by NUL. */
  function Join(names: seq<string>): seq<char> {
    if names == [] then [] else names[0] + [NUL] + Join(names[1..])
  }

  predicate NulFree(s: string) {
    forall j :: 0 <= j < |s| ==> s[j] != NUL
  }

  /** Reading the names back from their joined blob gives the names:
      init_keynames recovers exactly the list the blob was made from. */
  lemma EntriesOfJoin(names: seq<string>)
    requires forall k :: 0 <= k < |names| ==> NulFree(names[k])
    ensures Entries(Join(names), 0) == names
  {
    var blob := Join(names);
    assert blob[0..] == blob;
    EntriesAfter(blob, 0, names);
  }

  /** The same, for a joined list that makes up the blob from idx on. */
  lemma {:induction false} EntriesAfter(blob: seq<char>, idx: nat, names: seq<string>)
    requires idx <= |blob| && blob[idx..] == Join(names)
    requires forall k :: 0 <= k < |names| ==> NulFree(names[k])
    ensures Entries(blob, idx) == names
    decreases |names|
  {
    if names == [] {
      assert |blob[idx..]| == 0;
    } else {
      var n := |names[0]|;
      FirstOfJoin(blob, idx, names);
      EntriesAfter(blob, idx + n + 1, names[1..]);
      EntriesCons(blob, idx, names[0], names[1..]);
      assert names == [names[0]] + names[1..];
    }
  }

  /** One step of the walk: the name at idx, then the names after its NUL. */
  lemma EntriesCons(blob: seq<char>, idx: nat, name: string, rest: seq<string>)
    requires idx < |blob| && NameAt(blob, idx) == name
    requires Entries(blob, idx + StrLen(blob, idx) + 1) == rest
    ensures Entries(blob, idx) == [name] + rest
  {
  }

  /** Where a joined list makes up the blob from idx on, the C string at idx
      is the first name, and the rest of the list follows its NUL. */
  lemma FirstOfJoin(blob: seq<char>, idx: nat, names: seq<string>)
    requires idx <= |blob| && blob[idx..] == Join(names)
    requires names != [] && NulFree(names[0])
    ensures var n := |names[0]|;
      && idx + n < |blob|
      && StrLen(blob, idx) == n
      && NameAt(blob, idx) == names[0]
      && blob[idx + n + 1..] == Join(names[1..])
  {
    var name := names[0];
    var n := |name|;
    var tail := blob[idx..];
    assert tail == name + [NUL] + Join(names[1..]);
    assert tail[n] == NUL;
    assert tail[..n] == name;
    assert forall j :: idx <= j < idx + n ==> blob[j] == tail[j - idx] == name[j - idx];
    StrLenOf(blob, idx, n);
    assert blob[idx..idx + n] == tail[..n];
    assert blob[idx + n + 1..] == tail[n + 1..];
  }

  /** init_keynames: entry i (from 1 on) points at the offset of the
      (i-1)-th name of the blob, as long as both the table and the blob
      last; entry 0 and the entries past the last name are left as they
      were. */
  method InitKeynames(table: array<Option<nat>>, blob: seq<char>)
    requires table.Length == KEY_MAX
    modifies table
    ensures var starts := Starts(blob, 0);
      forall i :: 0 <= i < KEY_MAX ==>
        table[i] == (if 1 <= i && i - 1 < |starts| then Some(starts[i - 1]) else old(table[i]))
  {
    ghost var starts := Starts(blob, 0);
    ghost var rest := starts;
    var idx: nat := 0;
    var i := 1;
    while i < KEY_MAX && idx < |blob|
      invariant 1 <= i <= KEY_MAX
      invariant rest == Starts(blob, idx)
      invariant i - 1 <= |starts| && rest == starts[i - 1..]
      invariant forall j :: 1 <= j < i ==> table[j] == Some(starts[j - 1])
      invariant forall j :: 0 <= j < KEY_MAX && !(1 <= j < i) ==> table[j] == old(table[j])
    {
      var len := StrLen(blob, idx);
      ghost var rest' := Starts(blob, idx + len + 1);
      assert rest == [idx] + rest';
      assert starts[i - 1] == idx;
      assert starts[i..] == rest';
      table[i] := Some(idx);
      idx := idx + len + 1;
      i := i + 1;
      rest := rest';
    }
  }

  /** toupper in the C locale. */
  function ToUpper(c: char): (u: char)
    ensures u == NUL <==> c == NUL
    ensures 'a' <= c <= 'z' ==> u as int == c as int - 32
    ensures !('a' <= c <= 'z') ==> u == c
  {
    if 'a' <= c <= 'z' then (c as int - 32) as char else c
  }

  /** The first loop of find_key_by_name: upper-case the argument in place
      up to its terminating NUL. */
  method UppercaseArg(arg: array<char>)
    requires NUL in arg[..]
    modifies arg
    ensures StrLen(arg[..], 0) == StrLen(old(arg[..]), 0)
    ensures forall j :: 0 <= j < arg.Length ==>
      arg[j] == (if j < StrLen(old(arg[..]), 0) then ToUpper(old(arg[j])) else old(arg[j]))
  {
    ghost var a0 := arg[..];
    ghost var n := StrLen(a0, 0);
    StrLenStopsAtNul(a0, 0);
    var i := 0;
    while arg[i] != NUL
      invariant 0 <= i <= n < arg.Length
      invariant forall j :: 0 <= j < arg.Length ==> arg[j] == (if j < i then ToUpper(a0[j]) else a0[j])
      decreases n - i
    {
      arg[i] := ToUpper(arg[i]);
      i := i + 1;
    }
    StrLenOf(arg[..], 0, n);
  }

  /** Entry i of the table points at a C string equal to name (strcmp ==
      0); a NULL entry holds no name. */
  predicate Holds(table: seq<Option<nat>>, blob: seq<char>, i: nat, name: string)
    requires i < |table|
  {
    table[i].Some? && NameAt(blob, table[i].value) == name
  }

  /** The second loop of find_key_by_name: the first code from i on whose
      name is `name`, or 0 when there is none. */
  function Lookup(table: seq<Option<nat>>, blob: seq<char>, name: string, i: nat): nat
    requires i <= |table|
    decreases |table| - i
  {
    if i == |table| then 0
    else if Holds(table, blob, i, name) then i
    else Lookup(table, blob, name, i + 1)
  }

  /** The lookup returns the first entry holding the name when there is
      one, and 0 when no entry holds it. */
  lemma {:induction false} LookupFindsFirst(table: seq<Option<nat>>, blob: seq<char>, name: string, i: nat)
    requires i <= |table|
    ensures var r := Lookup(table, blob, name, i);
      && ((exists j :: i <= j < |table| && Holds(table, blob, j, name)) ==>
            i <= r < |table| && Holds(table, blob, r, name)
            && forall j :: i <= j < r ==> !Holds(table, blob, j, name))
      && ((forall j :: i <= j < |table| ==> !Holds(table, blob, j, name)) ==> r == 0)
    decreases |table| - i
  {
    if i < |table| && !Holds(table, blob, i, name) {
      LookupFindsFirst(table, blob, name, i + 1);
    }
  }

  /** find_key_by_name: upper-case the argument in place, then look it up. */
  method FindKeyByName(table: array<Option<nat>>, blob: seq<char>, arg: array<char>) returns (code: int)
    requires table.Length == KEY_MAX
    requires NUL in arg[..]
    modifies arg
    ensures StrLen(arg[..], 0) == StrLen(old(arg[..]), 0)
    ensures forall j :: 0 <= j < arg.Length ==>
      arg[j] == (if j < StrLen(old(arg[..]), 0) then ToUpper(old(arg[j])) else old(arg[j]))
    ensures code == Lookup(table[..], blob, CStr(arg[..]), 0)
  {
    UppercaseArg(arg);
    ghost var name := CStr(arg[..]);
    var i := 0;
    while i < KEY_MAX
      invariant 0 <= i <= KEY_MAX
      invariant Lookup(table[..], blob, name, 0) == Lookup(table[..], blob, name, i)
    {
      if table[i].Some? && NameAt(blob, table[i].value) == CStr(arg[..]) {
        return i;
      }
      i := i + 1;
    }
    return 0;
  }

  /** The table init_keynames leaves in the zero-initialised static array:
      entry i (from 1 on) points at the (i-1)-th name, every other entry is
      NULL. */
  predicate Initialised(table: seq<Option<nat>>, blob: seq<char>) {
    var starts := Starts(blob, 0);
    |table| == KEY_MAX &&
    forall i :: 0 <= i < KEY_MAX ==>
      table[i] == (if 1 <= i && i - 1 < |starts| then Some(starts[i - 1]) else None)
  }

  /** After init_keynames, looking up the k-th name of the blob gives code
      k + 1, unless an earlier name of the blob is the same. */
  lemma LookupAfterInit(table: seq<Option<nat>>, blob: seq<char>, k: nat)
    requires Initialised(table, blob)
    requires k < |Entries(blob, 0)| && k + 1 < KEY_MAX
    requires forall j :: 0 <= j < k ==> Entries(blob, 0)[j] != Entries(blob, 0)[k]
    ensures Lookup(table, blob, Entries(blob, 0)[k], 0) == k + 1
  {
    var names := Entries(blob, 0);
    var starts := Starts(blob, 0);
    StartsName(blob, 0);
    assert Holds(table, blob, k + 1, names[k]);
    forall j | 0 <= j < k + 1
      ensures !Holds(table, blob, j, names[k])
    {
      if j > 0 {
        assert table[j] == Some(starts[j - 1]);
        assert NameAt(blob, starts[j - 1]) == names[j - 1];
      }
    }
    LookupFindsFirst(table, blob, names[k], 0);
  }

  /** What reading keynames[code] can give: a name, NULL, or a read past
      the end of the table. */
  datatype NameRead = Name(name: string) | Unknown | PastEnd

  /** keyname_by_code with the bound check as written (code > KEY_MAX). */
  function KeynameByCodeAsWritten(table: seq<Option<nat>>, blob: seq<char>, code: int): NameRead
    requires |table| == KEY_MAX && 0 <= code <= 0xffff
  {
    if code > KEY_MAX then Unknown
    else if code >= |table| then PastEnd
    else match table[code]
      case None => Unknown
      case Some(p) => Name(NameAt(blob, p))
  }

  /** The check as written lets code == KEY_MAX through to a read one past
      the last entry. */
  lemma KeynameGuardAdmitsKeyMax(table: seq<Option<nat>>, blob: seq<char>)
    requires |table| == KEY_MAX
    ensures KeynameByCodeAsWritten(table, blob, KEY_MAX) == PastEnd
  {
  }

  /** keyname_by_code with the bound the table has (code >= KEY_MAX): the
      name at the code, or "unknown" for a code outside the table or with
      no name. */
  function KeynameByCode(table: seq<Option<nat>>, blob: seq<char>, code: int): (r: string)
    requires |table| == KEY_MAX && 0 <= code <= 0xffff
    ensures code < KEY_MAX && table[code].Some? ==> r == NameAt(blob, table[code].value)
    ensures code >= KEY_MAX || table[code].None? ==> r == "unknown"
  {
    if code >= KEY_MAX || table[code].None? then "unknown" else NameAt(blob, table[code].value)
  }

  /** The corrected lookup agrees with the one as written wherever that
      one stays inside the table. */
  lemma KeynameByCodeAgrees(table: seq<Option<nat>>, blob: seq<char>, code: int)
    requires |table| == KEY_MAX && 0 <= code <= 0xffff && code != KEY_MAX
    ensures KeynameByCodeAsWritten(table, blob, code) != PastEnd
    ensures KeynameByCode(table, blob, code) ==
      match KeynameByCodeAsWritten(table, blob, code)
      case Name(s) => s
      case _ => "unknown"
  {
  }

  /** The search loop of find_key_by_name inverts keyname_by_code: the
      name of a code looks up to that code, when no earlier entry has the
      same name. */
  lemma NameRoundTrip(table: seq<Option<nat>>, blob: seq<char>, code: nat)
    requires |table| == KEY_MAX && code < KEY_MAX && table[code].Some?
    requires forall j :: 0 <= j < code ==> !Holds(table, blob, j, KeynameByCode(table, blob, code))
    ensures Lookup(table, blob, KeynameByCode(table, blob, code), 0) == code
  {
    var name := KeynameByCode(table, blob, code);
    assert Holds(table, blob, code, name);
    LookupFindsFirst(table, blob, name, 0);
  }

  /** A name toupper leaves as it is (the key names of the table are
      upper-case). */
  predicate UpperCase(s: string) {
    forall j :: 0 <= j < |s| ==> ToUpper(s[j]) == s[j]
  }

  /** find_key_by_name inverts keyname_by_code: an argument buffer that
      holds the upper-case name of a code, upper-cased in place as
      FindKeyByName promises, looks up to that code, when no earlier entry
      has the same name. */
  lemma FindKeyByNameRoundTrip(table: seq<Option<nat>>, blob: seq<char>, code: nat,
                               before: seq<char>, after: seq<char>)
    requires |table| == KEY_MAX && code < KEY_MAX && table[code].Some?
    requires forall j :: 0 <= j < code ==> !Holds(table, blob, j, KeynameByCode(table, blob, code))
    requires UpperCase(KeynameByCode(table, blob, code))
    requires CStr(before) == KeynameByCode(table, blob, code)
    requires |after| == |before| && StrLen(after, 0) == StrLen(before, 0)
    requires forall j :: 0 <= j < |before| ==>
      after[j] == (if j < StrLen(before, 0) then ToUpper(before[j]) else before[j])
    ensures Lookup(table, blob, CStr(after), 0) == code
  {
    var name := KeynameByCode(table, blob, code);
    var n := StrLen(before, 0);
    assert CStr(after) == name by {
      forall j | 0 <= j < n
        ensures CStr(after)[j] == name[j]
      {
        assert name[j] == before[j];
      }
    }
    NameRoundTrip(table, blob, code);
  }
}
