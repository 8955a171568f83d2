/** The argument checks of `src/merge/cli.py`: `key_mapping`, which parses
    `source_key:target_key`, and the suffix rule of `is_yaml_file`. */
module Cli {
  import opened Base
  import opened Strings

  // ---------------------------------------------------------------------------------------
  // The pattern ^\s*[^:]+:\s*[^:\s]*\s*$ as Python's `re.match` reads it

  /** `\s*[^:]+` matches all of `b`, with the whitespace run ending at `i`. */
  predicate LeftParts(b: string, i: nat)
  {
    i < |b| &&
    (forall m :: 0 <= m < i ==> IsSpace(b[m])) &&
    (forall m :: i <= m < |b| ==> b[m] != ':')
  }

  ghost predicate LeftForm(b: string)
  {
    exists i: nat :: LeftParts(b, i)
  }

  /** `\s*[^:\s]*\s*` matches all of `r`, with the middle run from `k` to `l`. */
  predicate TailParts(r: string, k: nat, l: nat)
  {
    k <= l <= |r| &&
    (forall m :: 0 <= m < k ==> IsSpace(r[m])) &&
    (forall m :: k <= m < l ==> !IsSpace(r[m]) && r[m] != ':') &&
    (forall m :: l <= m < |r| ==> IsSpace(r[m]))
  }

  ghost predicate TailForm(r: string)
  {
    exists k: nat, l: nat :: TailParts(r, k, l)
  }

  /** `re.match(pattern, value)` succeeds: some `:` splits `value` into a part matching
      `\s*[^:]+` and a part matching `\s*[^:\s]*\s*`. (`$` may also match before a final
      newline, which the trailing `\s*` absorbs anyway.) */
  ghost predicate PatternMatches(v: string)
  {
    exists j :: 0 <= j < |v| && v[j] == ':' && LeftForm(v[..j]) && TailForm(v[j + 1..])
  }

  // ---------------------------------------------------------------------------------------
  // key_mapping

  /** The index of the first `:` in `v`, which is where `split(":", 1)` cuts. */
  function ColonIndex(v: string): (r: Option<nat>)
    ensures r.Some? ==> r.value < |v| && v[r.value] == ':' && NoChar(v[..r.value], ':')
    ensures r.None? ==> NoChar(v, ':')
  {
    if v == [] then None
    else if v[0] == ':' then Some(0)
    else
      var r := ColonIndex(v[1..]);
      if r.Some? then
        assert v[..r.value + 1] == [v[0]] + v[1..][..r.value];
        Some(r.value + 1)
      else None
  }

  /** The check `key_mapping` performs, by the first `:`: something before it, no other
      `:` after it, and no inner whitespace in what follows once stripped. */
  predicate Accepts(v: string)
  {
    match ColonIndex(v)
    case None => false
    case Some(j) => j >= 1 && NoChar(v[j + 1..], ':') && NoSpace(Strip(v[j + 1..]))
  }

  predicate Stripped(s: string)
  {
    s == [] || (!IsSpace(s[0]) && !IsSpace(s[|s| - 1]))
  }

  function CountChar(s: string, c: char): nat
  {
    if s == [] then 0 else (if s[0] == c then 1 else 0) + CountChar(s[1..], c)
  }

  const InvalidFormat: string := "Invalid format. Use 'source_key:target_key'"

  /** `key_mapping(value)`: the stripped parts before and after the first `:`, or
      `ArgumentTypeError` when the value does not have the form `KeyMappingMatchesPattern`
      characterises. */
  function KeyMapping(value: string): (r: Result<(string, string)>)
    ensures r.Err? ==> r.error == ArgumentTypeError(InvalidFormat)
    ensures r.Ok? ==>
      ColonIndex(value).Some? &&
      var j := ColonIndex(value).value;
      NoChar(value[..j], ':') && r.value == (Strip(value[..j]), Strip(value[j + 1..]))
  {
    if !Accepts(value) then Err(ArgumentTypeError(InvalidFormat))
    else
      var j := ColonIndex(value).value;
      Ok((Strip(value[..j]), Strip(value[j + 1..])))
  }

  /** `key_mapping` accepts exactly the values `re.match` finds the pattern in. */
  lemma KeyMappingMatchesPattern(value: string)
    ensures KeyMapping(value).Ok? <==> PatternMatches(value)
  {
    AcceptsIffPattern(value);
  }

  /** An accepted value holds exactly one `:`; neither key holds one, both are stripped,
      and the target key has no whitespace at all. */
  lemma KeyMappingParts(value: string)
    requires KeyMapping(value).Ok?
    ensures CountChar(value, ':') == 1
    ensures var (src, tgt) := KeyMapping(value).value;
      NoChar(src, ':') && NoChar(tgt, ':') && NoSpace(tgt) && Stripped(src) && Stripped(tgt)
  {
    var j := ColonIndex(value).value;
    assert NoChar(value[j + 1..], ':') && NoSpace(Strip(value[j + 1..]));
    StripNoChar(value[..j], ':');
    StripNoChar(value[j + 1..], ':');
    OneColon(value, j);
  }

  /** A value built from a colon-free source key and a target key without `:` or
      whitespace is accepted and parsed back into the stripped source key and the target. */
  lemma KeyMappingRoundTrip(src: string, tgt: string)
    requires src != [] && NoChar(src, ':')
    requires NoChar(tgt, ':') && NoSpace(tgt)
    ensures KeyMapping(src + ":" + tgt) == Ok((Strip(src), tgt))
  {
    var v := src + ":" + tgt;
    assert v[..|src|] == src && v[|src| + 1..] == tgt;
    FirstColonAt(v, |src|);
    StripNoSpace(tgt);
  }

  /** The source key may be empty: the pattern lets whitespace alone stand before `:`. */
  lemma BlankSourceKey()
    ensures KeyMapping(" :b") == Ok(("", "b"))
  {
    assert " :b" == " " + ":" + "b";
    KeyMappingRoundTrip(" ", "b");
    StripBlank(" ");
  }

  // ---------------------------------------------------------------------------------------
  // Helper facts about stripping and colons

  lemma FirstColonAt(v: string, j: nat)
    requires j < |v| && v[j] == ':' && NoChar(v[..j], ':')
    ensures ColonIndex(v) == Some(j)
  {
    var r := ColonIndex(v);
    assert forall m :: 0 <= m < j ==> v[..j][m] == v[m];
    assert r.Some?;
    assert forall m :: 0 <= m < r.value ==> v[..r.value][m] == v[m];
  }

  lemma {:induction false} CountNone(s: string, c: char)
    requires NoChar(s, c)
    ensures CountChar(s, c) == 0
  {
    if s != [] {
      CountNone(s[1..], c);
    }
  }

  lemma {:induction false} CountConcat(a: string, b: string, c: char)
    ensures CountChar(a + b, c) == CountChar(a, c) + CountChar(b, c)
  {
    if a == [] {
      assert a + b == b;
    } else {
      assert (a + b)[1..] == a[1..] + b;
      CountConcat(a[1..], b, c);
    }
  }

  lemma OneColon(v: string, j: nat)
    requires j < |v| && v[j] == ':' && NoChar(v[..j], ':') && NoChar(v[j + 1..], ':')
    ensures CountChar(v, ':') == 1
  {
    assert v == v[..j] + ([v[j]] + v[j + 1..]);
    CountConcat(v[..j], [v[j]] + v[j + 1..], ':');
    CountConcat([v[j]], v[j + 1..], ':');
    CountNone(v[..j], ':');
    CountNone(v[j + 1..], ':');
  }

  lemma TailFormIff(r: string)
    ensures TailForm(r) <==> NoChar(r, ':') && NoSpace(Strip(r))
  {
    if TailForm(r) {
      var k: nat, l: nat :| TailParts(r, k, l);
      TailPartsSound(r, k, l);
    }
    if NoChar(r, ':') && NoSpace(Strip(r)) {
      TailPartsOfStrip(r);
    }
  }

  lemma TailPartsSound(r: string, k: nat, l: nat)
    requires TailParts(r, k, l)
    ensures NoChar(r, ':') && NoSpace(Strip(r))
  {
    if k == l {
      StripBlank(r);
    } else {
      StripAt(r, k, l);
      assert forall m :: 0 <= m < l - k ==> r[k..l][m] == r[k + m];
    }
  }

  lemma TailPartsOfStrip(r: string)
    requires NoChar(r, ':') && NoSpace(Strip(r))
    ensures TailForm(r)
  {
    var k := LeadEnd(r, 0);
    var l := TrailStart(r, k, |r|);
    assert forall m :: k <= m < l ==> r[m] == Strip(r)[m - k];
    assert TailParts(r, k, l);
  }

  lemma LeftFormIff(b: string)
    ensures LeftForm(b) <==> b != [] && NoChar(b, ':')
  {
    if b != [] && NoChar(b, ':') {
      assert LeftParts(b, 0);
    }
  }

  /** The computable check and the pattern accept the same strings. */
  lemma AcceptsIffPattern(v: string)
    ensures Accepts(v) <==> PatternMatches(v)
  {
    if Accepts(v) {
      var j := ColonIndex(v).value;
      LeftFormIff(v[..j]);
      TailFormIff(v[j + 1..]);
    }
    if PatternMatches(v) {
      var j :| 0 <= j < |v| && v[j] == ':' && LeftForm(v[..j]) && TailForm(v[j + 1..]);
      LeftFormIff(v[..j]);
      TailFormIff(v[j + 1..]);
      FirstColonAt(v, j);
    }
  }

  // ---------------------------------------------------------------------------------------
  // is_yaml_file

  /** `is_yaml_file(path)`, with the files that exist given as a set: an existing file is
      required first, then a `.yaml` or `.yml` name. */
  function IsYamlFile(path: string, existingFiles: set<string>): (r: Result<string>)
    ensures r.Ok? <==> path in existingFiles && (EndsWith(path, ".yaml") || EndsWith(path, ".yml"))
    ensures r.Ok? ==> r.value == path
    ensures path !in existingFiles ==> r == Err(ArgumentTypeError(path + " is not a valid file."))
    ensures path in existingFiles && !r.Ok? ==> r == Err(ArgumentTypeError(path + " is not a YAML file."))
  {
    if path !in existingFiles then Err(ArgumentTypeError(path + " is not a valid file."))
    else if !(EndsWith(path, ".yaml") || EndsWith(path, ".yml")) then Err(ArgumentTypeError(path + " is not a YAML file."))
    else Ok(path)
  }
}
