/** The sample file system's mount options: a comma-separated string taken apart in place. */
module MountOptions {

  const NUL: char := '\0'

  /* ---------- strings ---------- */

  /** Where `c` first occurs in `s`; the length if it does not. */
  function Find(s: string, c: char): (i: nat)
    ensures i <= |s| && (i < |s| ==> s[i] == c) && forall k :: 0 <= k < i ==> s[k] != c
  {
    if s == [] || s[0] == c then 0 else 1 + Find(s[1..], c)
  }

  lemma {:induction false} FindIs(s: string, c: char, i: nat)
    requires i <= |s| && (i < |s| ==> s[i] == c) && forall k :: 0 <= k < i ==> s[k] != c
    ensures Find(s, c) == i
  {
  }

  function Tokens(s: string): seq<string>
    decreases |s|
  {
    var i := Find(s, ',');
    if i == |s| then [s] else [s[..i]] + Tokens(s[i + 1..])
  }

  function Join(tokens: seq<string>): string {
    if tokens == [] then [] else if |tokens| == 1 then tokens[0]
    else tokens[0] + [','] + Join(tokens[1..])
  }

  /** The tokens are the comma-free pieces of the string. */
  lemma {:induction false} TokensJoin(s: string)
    ensures Tokens(s) != [] && Join(Tokens(s)) == s
    ensures forall t :: t in Tokens(s) ==> ',' !in t
    decreases |s|
  {
    var i := Find(s, ',');
    if i < |s| {
      TokensJoin(s[i + 1..]);
      assert Tokens(s)[1..] == Tokens(s[i + 1..]);
      assert s == s[..i] + [','] + s[i + 1..];
    }
  }

  function Lower(c: char): char { if 'A' <= c <= 'Z' then c + 32 as char else c }

  /** strnicmp(data, name, 5) == 0: only the first five characters are compared, in either case. */
  predicate Names(data: string, name: string)
    requires |name| == 5
  {
    |data| >= 5 && forall k :: 0 <= k < 5 ==> Lower(data[k]) == name[k]
  }

  /* ---------- what an option does ---------- */

  datatype Sizes = Sizes(rsize: int, wsize: int)

  datatype Field = RSize | WSize

  /** Which field an option string sets and to what; `strtoul` is the int simple_strtoul's result becomes. */
  function Setting(token: string, strtoul: string -> int): (r: (bool, Field, int)) {
    var eq := Find(token, '=');
    var data := token[..eq];
    var field := if Names(data, "rsize") then RSize else WSize;
    if (Names(data, "rsize") || Names(data, "wsize")) && eq + 1 < |token| && strtoul(token[eq + 1..]) > 0
    then (true, field, strtoul(token[eq + 1..]))
    else (false, field, 0)
  }

  function Apply(z: Sizes, token: string, strtoul: string -> int): Sizes {
    var (sets, field, size) := Setting(token, strtoul);
    if !sets then z else match field case RSize => z.(rsize := size) case WSize => z.(wsize := size)
  }

  function Fold(z: Sizes, tokens: seq<string>, strtoul: string -> int): Sizes
    decreases |tokens|
  {
    if tokens == [] then z else Fold(Apply(z, tokens[0], strtoul), tokens[1..], strtoul)
  }

  function Value(z: Sizes, field: Field): int { if field == RSize then z.rsize else z.wsize }

  predicate Sets(token: string, field: Field, strtoul: string -> int) {
    Setting(token, strtoul).0 && Setting(token, strtoul).1 == field
  }

  lemma {:induction false} LastSet(z: Sizes, tokens: seq<string>, strtoul: string -> int, field: Field, i: nat)
    requires i <= |tokens| && forall j :: i < j < |tokens| ==> !Sets(tokens[j], field, strtoul)
    requires i < |tokens| ==> Sets(tokens[i], field, strtoul)
    requires i == |tokens| ==> forall j :: 0 <= j < |tokens| ==> !Sets(tokens[j], field, strtoul)
    ensures Value(Fold(z, tokens, strtoul), field) ==
            if i < |tokens| then Setting(tokens[i], strtoul).2 else Value(z, field)
    decreases |tokens|
  {
    hide Setting;
    if tokens != [] {
      var rest, next := tokens[1..], Apply(z, tokens[0], strtoul);
      if i == 0 {
        LastSet(next, rest, strtoul, field, |rest|);
      } else {
        LastSet(next, rest, strtoul, field, i - 1);
      }
    }
  }

  /* ---------- what an option says ---------- */

  /** The option reads `name`=`v` with a value that counts, and its name starts with the five letters `low`, in
      lower case or in upper case (`high`), each letter for itself. */
  predicate Gives(token: string, name: string, v: string, low: string, high: string, strtoul: string -> int)
    requires |low| == |high| == 5
  {
    && token == name + "=" + v && '=' !in name
    && |name| >= 5 && (forall k :: 0 <= k < 5 ==> name[k] == low[k] || name[k] == high[k])
    && v != "" && strtoul(v) > 0
  }

  ghost predicate GivesNone(tokens: seq<string>, from: int, low: string, high: string, strtoul: string -> int)
    requires |low| == |high| == 5
  {
    forall j, name, v :: 0 <= j < |tokens| && from <= j ==> !Gives(tokens[j], name, v, low, high, strtoul)
  }

  /** The size is what the last option that gives it says, or what it was if none does. */
  ghost predicate LastGiven(tokens: seq<string>, low: string, high: string, strtoul: string -> int, was: int, now: int)
    requires |low| == |high| == 5
  {
    && (forall i, name, v | 0 <= i < |tokens| && Gives(tokens[i], name, v, low, high, strtoul) ::
          GivesNone(tokens, i + 1, low, high, strtoul) ==> now == strtoul(v))
    && (GivesNone(tokens, 0, low, high, strtoul) ==> now == was)
  }

  lemma SpelledOut(data: string)
    ensures Names(data, "rsize") <==>
      |data| >= 5 && forall k :: 0 <= k < 5 ==> data[k] == "rsize"[k] || data[k] == "RSIZE"[k]
    ensures Names(data, "wsize") <==>
      |data| >= 5 && forall k :: 0 <= k < 5 ==> data[k] == "wsize"[k] || data[k] == "WSIZE"[k]
  {
    LowerIs();
    hide Lower;
  }

  lemma LowerIs()
    ensures forall c :: Lower(c) == 'r' <==> c == 'r' || c == 'R'
    ensures forall c :: Lower(c) == 'w' <==> c == 'w' || c == 'W'
    ensures forall c :: Lower(c) == 's' <==> c == 's' || c == 'S'
    ensures forall c :: Lower(c) == 'i' <==> c == 'i' || c == 'I'
    ensures forall c :: Lower(c) == 'z' <==> c == 'z' || c == 'Z'
    ensures forall c :: Lower(c) == 'e' <==> c == 'e' || c == 'E'
  {
  }

  lemma NotBoth(data: string)
    ensures !(Names(data, "rsize") && Names(data, "wsize"))
  {
    assert Names(data, "rsize") ==> Lower(data[0]) == "rsize"[0];
    assert Names(data, "wsize") ==> Lower(data[0]) == "wsize"[0];
  }

  const LOW: map<Field, string> := map[RSize := "rsize", WSize := "wsize"]
  const HIGH: map<Field, string> := map[RSize := "RSIZE", WSize := "WSIZE"]

  /** An option sets a size exactly when it gives it, and to what it gives. */
  lemma SetsIsGives(token: string, strtoul: string -> int, field: Field)
    ensures forall name, v :: Gives(token, name, v, LOW[field], HIGH[field], strtoul) ==>
              Sets(token, field, strtoul) && Setting(token, strtoul).2 == strtoul(v)
    ensures Sets(token, field, strtoul) ==> exists name, v :: Gives(token, name, v, LOW[field], HIGH[field], strtoul)
  {
    var eq := Find(token, '=');
    SpelledOut(token[..eq]);
    NotBoth(token[..eq]);
    hide Names;
    forall name, v | Gives(token, name, v, LOW[field], HIGH[field], strtoul)
      ensures Sets(token, field, strtoul) && Setting(token, strtoul).2 == strtoul(v)
    {
      FindIs(token, '=', |name|);
      assert token[..eq] == name && token[eq + 1..] == v;
    }
    if Sets(token, field, strtoul) {
      assert token == token[..eq] + "=" + token[eq + 1..];
      assert Gives(token, token[..eq], token[eq + 1..], LOW[field], HIGH[field], strtoul);
    }
  }

  lemma SetLast(z: Sizes, tokens: seq<string>, strtoul: string -> int, field: Field)
    ensures LastGiven(tokens, LOW[field], HIGH[field], strtoul, Value(z, field), Value(Fold(z, tokens, strtoul), field))
  {
    hide Gives, Setting, Sets, Fold, Value;
    forall i | 0 <= i < |tokens|
      ensures forall name, v :: Gives(tokens[i], name, v, LOW[field], HIGH[field], strtoul) ==>
                Sets(tokens[i], field, strtoul) && Setting(tokens[i], strtoul).2 == strtoul(v)
      ensures Sets(tokens[i], field, strtoul) ==>
                exists name, v :: Gives(tokens[i], name, v, LOW[field], HIGH[field], strtoul)
    {
      SetsIsGives(tokens[i], strtoul, field);
    }
    forall i, name, v | 0 <= i < |tokens| && Gives(tokens[i], name, v, LOW[field], HIGH[field], strtoul)
                        && GivesNone(tokens, i + 1, LOW[field], HIGH[field], strtoul)
      ensures Value(Fold(z, tokens, strtoul), field) == strtoul(v)
    {
      LastSet(z, tokens, strtoul, field, i);
    }
    if GivesNone(tokens, 0, LOW[field], HIGH[field], strtoul) {
      LastSet(z, tokens, strtoul, field, |tokens|);
    }
  }

  /** From the text of the options alone: each size ends up as the number in the last option that gives it, whatever
      stands between, and as it was if none does. */
  lemma LastPositiveWins(z: Sizes, tokens: seq<string>, strtoul: string -> int)
    ensures LastGiven(tokens, "rsize", "RSIZE", strtoul, z.rsize, Fold(z, tokens, strtoul).rsize)
    ensures LastGiven(tokens, "wsize", "WSIZE", strtoul, z.wsize, Fold(z, tokens, strtoul).wsize)
  {
    hide LastGiven, Fold;
    SetLast(z, tokens, strtoul, RSize);
    SetLast(z, tokens, strtoul, WSize);
  }

  /* ---------- what is left of the string ---------- */

  /** A token with its first '=' cut out. */
  function CutToken(t: string): (r: string)
    ensures |r| == |t|
  {
    var eq := Find(t, '=');
    if eq == |t| then t else t[eq := NUL]
  }

  function Cut(s: string): (r: string)
    ensures |r| == |s|
    decreases |s|
  {
    var i := Find(s, ',');
    if i == |s| then CutToken(s) else CutToken(s[..i]) + [NUL] + Cut(s[i + 1..])
  }

  /** A comma, or an '=' with no other before it since the last comma. */
  predicate CutOut(s: string, k: nat)
    requires k < |s|
  {
    s[k] == ',' || (s[k] == '=' && forall j :: 0 <= j < k && s[j] == '=' ==> exists m :: j < m < k && s[m] == ',')
  }

  lemma {:induction false} CutAt(s: string)
    ensures forall k :: 0 <= k < |s| ==> Cut(s)[k] == if CutOut(s, k) then NUL else s[k]
    decreases |s|
  {
    var i := Find(s, ',');
    forall k | 0 <= k < |s| ensures Cut(s)[k] == if CutOut(s, k) then NUL else s[k] {
      var eq := Find(s[..i], '=');
      if k < i {
        TokenCutAt(s, i, k);
      } else if k > i {
        CutAt(s[i + 1..]);
        CutLater(s, i, k);
      }
    }
  }

  lemma TokenCutAt(s: string, i: nat, k: nat)
    requires k < i <= |s| && ',' !in s[..i]
    ensures CutToken(s[..i])[k] == if CutOut(s, k) then NUL else s[k]
  {
    var eq := Find(s[..i], '=');
    assert forall m :: 0 <= m < i ==> s[..i][m] == s[m] && s[m] != ',';
  }

  lemma CutLater(s: string, i: nat, k: nat)
    requires i < k < |s| && s[i] == ','
    ensures CutOut(s, k) <==> CutOut(s[i + 1..], k - i - 1)
  {
    var t := s[i + 1..];
    assert forall m :: i < m < |s| ==> s[m] == t[m - i - 1];
    if CutOut(t, k - i - 1) && s[k] == '=' {
      forall j | 0 <= j < k && s[j] == '=' ensures exists m :: j < m < k && s[m] == ',' {
        if j > i {
          var m :| j - i - 1 < m < k - i - 1 && t[m] == ',';
          assert s[m + i + 1] == ',';
        }
      }
    }
    if CutOut(s, k) && s[k] == '=' {
      forall j | 0 <= j < k - i - 1 && t[j] == '=' ensures exists m :: j < m < k - i - 1 && t[m] == ',' {
        assert s[j + i + 1] == '=';
        var m :| j + i + 1 < m < k && s[m] == ',';
        assert t[m - i - 1] == ',';
      }
    }
  }

  /* ---------- the parser ---------- */

  class SbInfo {
    var rsize: int
    var wsize: int

    ghost function Now(): Sizes
      reads this
    {
      Sizes(rsize, wsize)
    }

    constructor (rsize: int, wsize: int)
      ensures Now() == Sizes(rsize, wsize)
    {
      this.rsize, this.wsize := rsize, wsize;
    }
  }

  /** `s` holds a C string of length `n`. */
  predicate CString(s: string, n: nat) {
    n < |s| && s[n] == NUL && forall k :: 0 <= k < n ==> s[k] != NUL
  }

  /** strsep: where the token starting at `start` ends; the comma there, if any, is cut out. */
  method Strsep(a: array<char>, start: nat, n: nat) returns (end: nat)
    requires start <= n < a.Length && a[n] == NUL && forall k :: start <= k < n ==> a[k] != NUL
    modifies a
    ensures end == start + Find(old(a[start..n]), ',')
    ensures a[..] == if end < n then old(a[..])[end := NUL] else old(a[..])
  {
    end := start;
    while a[end] != ',' && a[end] != NUL
      invariant start <= end <= n
      invariant forall k :: start <= k < end ==> a[k] != ','
      decreases n - end
    {
      end := end + 1;
    }
    FindIs(a[start..n], ',', end - start);
    if a[end] == ',' {
      a[end] := NUL;
    }
  }

  method Strchr(a: array<char>, start: nat, end: nat, c: char) returns (at: nat)
    requires start <= end <= a.Length
    ensures at == start + Find(a[start..end], c)
  {
    at := start;
    while at < end && a[at] != c
      invariant start <= at <= end
      invariant forall k :: start <= k < at ==> a[k] != c
    {
      at := at + 1;
    }
    FindIs(a[start..end], c, at - start);
  }

  lemma Parts(s: string, i: nat, j: nat)
    requires i <= j <= |s|
    ensures s == s[..i] + s[i..j] + s[j..]
  {
  }

  /** An option's '=' is cut out, and its two sides taken. */
  method CutOption(a: array<char>, start: nat, end: nat) returns (data: string, value: string)
    requires start < end <= a.Length
    modifies a
    ensures var token := old(a[start..end]); var eq := Find(token, '=');
      && data == token[..eq] && value == (if eq == |token| then [] else token[eq + 1..])
      && a[..] == old(a[..start]) + CutToken(token) + old(a[end..])
  {
    ghost var token, was := a[start..end], a[..];
    var eq := Strchr(a, start, end, '=');
    data, value := a[start..eq], [];
    assert data == token[..eq - start];
    if eq < end {
      value := a[eq + 1..end];
      assert value == token[eq - start + 1..];
      a[eq] := NUL;
    }
    assert a[start..end] == CutToken(token);
    hide Find, CutToken;
    assert a[..start] == was[..start] && a[end..] == was[end..];
    Parts(a[..], start, end);
  }

  method SetSize(data: string, value: string, sb: SbInfo, strtoul: string -> int, ghost token: string)
    requires var eq := Find(token, '='); data == token[..eq] && value == if eq == |token| then [] else token[eq + 1..]
    modifies sb
    ensures sb.Now() == Apply(old(sb.Now()), token, strtoul)
  {
    if Names(data, "rsize") {
      if value != [] {
        var size := strtoul(value);
        if size > 0 {
          sb.rsize := size;
        }
      }
    } else if Names(data, "wsize") {
      if value != [] {
        var size := strtoul(value);
        if size > 0 {
          sb.wsize := size;
        }
      }
    }
  }

  /** One turn of the option loop: the token at `at` is cut out of the string and applied. */
  method NextOption(a: array<char>, at: nat, n: nat, sb: SbInfo, strtoul: string -> int) returns (end: nat)
    requires at <= n < a.Length && a[n] == NUL && forall k :: at <= k < n ==> a[k] != NUL
    modifies a, sb
    ensures var rest := old(a[at..n]);
      end == at + Find(rest, ',') && sb.Now() == Apply(old(sb.Now()), rest[..end - at], strtoul)
    ensures a[..] == old(a[..at]) + CutToken(old(a[at..n])[..end - at]) +
                     if end < n then [NUL] + old(a[end + 1..]) else old(a[end..])
  {
    hide Find, Apply, CutToken;
    ghost var was := a[..];
    ghost var rest := a[at..n];
    end := Strsep(a, at, n);
    ghost var token := rest[..end - at];
    assert a[at..end] == token;
    assert a[..at] == was[..at] && a[end..] == if end < n then [NUL] + was[end + 1..] else was[end..];
    if at < end {
      var data, value := CutOption(a, at, end);
      SetSize(data, value, sb, strtoul, token);
    } else {
      EmptyOption(sb.Now(), strtoul);
      assert a[..] == a[..at] + a[end..];
    }
  }

  lemma EmptyOption(z: Sizes, strtoul: string -> int)
    ensures Apply(z, [], strtoul) == z && CutToken([]) == []
  {
  }

  /** The string so far: everything before `at` is cut, everything from there on is as it was. */
  predicate Reached(s: string, tail: string, now: string, at: nat) {
    at <= |s| && |now| == |s| + |tail| && now[..at] + Cut(s[at..]) == Cut(s) && now[at..] == s[at..] + tail
  }

  lemma Remains(s: string, tail: string, now: string, at: nat)
    requires Reached(s, tail, now, at)
    ensures now[at..|s|] == s[at..] && now[|s|..] == tail && now[..at] + Cut(s[at..]) == Cut(s)
  {
    hide Cut;
    Slices(s[at..], tail, now, at);
  }

  lemma Slices(rest: string, tail: string, now: string, at: nat)
    requires at <= |now| && now[at..] == rest + tail
    ensures now[at..at + |rest|] == rest && now[at + |rest|..] == tail
  {
    var b := now[at..];
    assert now[at..at + |rest|] == b[..|rest|];
    assert now[at + |rest|..] == b[|rest|..];
  }

  lemma ReachNext(s: string, tail: string, now: string, at: nat, next: string, end: nat)
    requires Reached(s, tail, now, at) && end == at + Find(s[at..], ',') && end < |s|
    requires next == now[..at] + CutToken(s[at..][..end - at]) + ([NUL] + now[end + 1..])
    ensures Reached(s, tail, next, end + 1)
  {
    hide Find, CutToken, Cut;
    var head, cut, rest := now[..at], CutToken(s[at..][..end - at]), s[end + 1..];
    CutNext(s[at..]);
    assert s[at..][end - at + 1..] == rest;
    LaterTail(s, tail, now, at, end + 1);
    Regroup(head, cut, rest + tail, Cut(rest));
  }

  lemma ReachEnd(s: string, tail: string, now: string, at: nat, next: string)
    requires Reached(s, tail, now, at) && Find(s[at..], ',') == |s| - at
    requires next == now[..at] + CutToken(s[at..][..|s| - at]) + now[|s|..]
    ensures next == Cut(s) + tail
  {
    hide Find, CutToken, Cut, Reached;
    Remains(s, tail, now, at);
    CutNext(s[at..]);
    Last(CutToken(s[at..][..|s| - at]));
  }

  lemma CutNext(s: string)
    ensures var i := Find(s, ','); Cut(s) == CutToken(s[..i]) + if i == |s| then [] else [NUL] + Cut(s[i + 1..])
  {
    hide Find, CutToken;
    assert s[..|s|] == s;
  }

  lemma Last(cut: string)
    ensures cut + [] == cut
  {
  }

  lemma LaterTail(s: string, tail: string, now: string, at: nat, later: nat)
    requires at <= later <= |s| && |now| == |s| + |tail| && now[at..] == s[at..] + tail
    ensures now[later..] == s[later..] + tail
  {
    assert now[later..] == now[at..][later - at..];
  }

  lemma Regroup(head: string, cut: string, after: string, rest: string)
    ensures var next := head + cut + ([NUL] + after); var end := |head| + |cut|;
      && next[..end + 1] + rest == head + (cut + ([NUL] + rest))
      && next[end + 1..] == after
  {
  }

  lemma FoldNext(z: Sizes, s: string, at: nat, strtoul: string -> int)
    requires at <= |s|
    ensures var i := Find(s[at..], ',');
      Fold(z, Tokens(s[at..]), strtoul) == var z' := Apply(z, s[at..][..i], strtoul);
        if at + i == |s| then z' else Fold(z', Tokens(s[at + i + 1..]), strtoul)
  {
    hide Find, Apply;
    var i := Find(s[at..], ',');
    if at + i == |s| {
      assert s[at..][..i] == s[at..];
    } else {
      assert s[at..][i + 1..] == s[at + i + 1..];
      assert ([s[at..][..i]] + Tokens(s[at + i + 1..]))[1..] == Tokens(s[at + i + 1..]);
    }
  }

  /** samplefs_parse_mount_options, from the text of the string: each size becomes the number in the last option that
      gives it, and only the commas and the first '=' of each option are overwritten. */
  method ParseMountOptions(options: array?<char>, n: nat, sb: SbInfo, strtoul: string -> int)
    requires options != null ==> CString(options[..], n)
    modifies options, sb
    ensures options == null ==> sb.rsize == old(sb.rsize) && sb.wsize == old(sb.wsize)
    ensures options != null ==> (
      && LastGiven(Tokens(old(options[..n])), "rsize", "RSIZE", strtoul, old(sb.rsize), sb.rsize)
      && LastGiven(Tokens(old(options[..n])), "wsize", "WSIZE", strtoul, old(sb.wsize), sb.wsize)
      && (forall k :: 0 <= k < n ==>
            options[k] == if CutOut(old(options[..n]), k) then NUL else old(options[k]))
      && options[n..] == old(options[n..]))
  {
    hide Find, Apply, CutToken, CutOut, Fold, Tokens, Cut, LastGiven;
    if options == null {
      return;
    }
    var at: nat := 0;
    ghost var s, tail, z := options[..n], options[n..], sb.Now();
    assert s[0..] == s && options[0..] == s + tail;
    while true
      invariant 0 <= at <= n && |s| == n && |s + tail| == options.Length
      invariant Fold(sb.Now(), Tokens(s[at..]), strtoul) == Fold(z, Tokens(s), strtoul)
      invariant Reached(s, tail, options[..], at)
      decreases n - at
    {
      ghost var now, before := options[..], sb.Now();
      Remains(s, tail, now, at);
      assert options[at..n] == s[at..];
      var end := NextOption(options, at, n, sb, strtoul);
      FoldNext(before, s, at, strtoul);
      if end == n {
        ReachEnd(s, tail, now, at, options[..]);
        CutAt(s);
        LastPositiveWins(z, Tokens(s), strtoul);
        break;
      }
      ReachNext(s, tail, now, at, options[..], end);
      at := end + 1;
    }
  }
}
