/** Matching an entity tag against a list of tags (sections 2.3, 3.1 and 3.2 of
    RFC 7232). The characters of a string are its bytes. */
module ETag {
  predicate Blank(c: char) {
    c == ' ' || c == '\t' || c == '\n' || c == '\r'
  }

  /** What may stand between the tags of a list. */
  predicate Separator(s: string) {
    forall i :: 0 <= i < |s| ==> Blank(s[i]) || s[i] == ','
  }

  predicate TagChar(c: char) {
    c as int == 0x21 || 0x23 <= c as int <= 0x7E || c as int >= 0x80
  }

  /** Where the opening quote is: after the W/ of a weak tag. */
  function Start(s: string): nat {
    if "W/" <= s then 2 else 0
  }

  /** An opaque tag between quotes, perhaps a weak one. */
  predicate WellFormed(e: string) {
    var o := Start(e);
    && |e| >= o + 2 && e[o] == '"' && e[|e| - 1] == '"'
    && forall i :: o < i < |e| - 1 ==> TagChar(e[i])
  }

  function TrimLeft(s: string): (t: string)
    ensures |t| <= |s|
    ensures t != "" ==> !Blank(t[0])
  {
    if s != "" && Blank(s[0]) then TrimLeft(s[1..]) else s
  }

  lemma {:induction false} OnlyBlanksAreTrimmed(s: string) returns (blanks: string)
    ensures s == blanks + TrimLeft(s) && Separator(blanks)
  {
    blanks := "";
    if s != "" && Blank(s[0]) {
      blanks := OnlyBlanksAreTrimmed(s[1..]);
      blanks := [s[0]] + blanks;
    }
  }

  // ---------------------------------------------------------------- one tag

  /** Where the tag whose text goes on at i ends, or 0. */
  function TagEnd(s: string, i: nat): (n: nat)
    requires i <= |s|
    ensures n > 0 ==> i < n <= |s|
    decreases |s| - i
  {
    if i == |s| then 0
    else if TagChar(s[i]) then TagEnd(s, i + 1)
    else if s[i] == '"' then i + 1
    else 0
  }

  function TagLength(s: string): nat {
    if |s| - Start(s) < 2 || s[Start(s)] != '"' then 0 else TagEnd(s, Start(s) + 1)
  }

  lemma {:induction false} TagEndMeaning(s: string, i: nat)
    requires i <= |s|
    ensures TagEnd(s, i) > 0 ==> s[TagEnd(s, i) - 1] == '"' && forall j :: i <= j < TagEnd(s, i) - 1 ==> TagChar(s[j])
    decreases |s| - i
  {
    if i < |s| && TagChar(s[i]) {
      TagEndMeaning(s, i + 1);
    }
  }

  lemma {:induction false} TagEndIs(s: string, i: nat, k: nat)
    requires i <= k < |s| && s[k] == '"' && forall j :: i <= j < k ==> TagChar(s[j])
    ensures TagEnd(s, i) == k + 1
    decreases |s| - i
  {
    if i < k {
      TagEndIs(s, i + 1, k);
    }
  }

  /** A string begins with one well-formed tag at most, and TagLength finds it. */
  lemma TagLengthMeaning(s: string)
    ensures TagLength(s) <= |s|
    ensures TagLength(s) > 0 ==> WellFormed(s[..TagLength(s)])
    ensures forall k :: 0 <= k <= |s| && WellFormed(s[..k]) ==> k == TagLength(s) > 0
  {
    var n := TagLength(s);
    if n > 0 {
      TagEndMeaning(s, Start(s) + 1);
      assert Start(s[..n]) == Start(s);
    }
    forall k | 0 <= k <= |s| && WellFormed(s[..k]) ensures k == n > 0 {
      var e := s[..k];
      assert Start(e) == Start(s);
      assert forall j :: 0 <= j < k ==> e[j] == s[j];
      TagEndIs(s, Start(s) + 1, k - 1);
    }
  }

  method ScanETag(s0: string) returns (etag: string, remain: string)
    ensures etag != "" ==> WellFormed(etag) && TrimLeft(s0) == etag + remain
    ensures etag == "" ==> remain == "" && forall k :: 0 <= k <= |TrimLeft(s0)| ==> !WellFormed(TrimLeft(s0)[..k])
  {
    hide WellFormed, TrimLeft, Blank, TagChar;
    var s := TrimLeft(s0);
    TagLengthMeaning(s);
    var start := 0;
    if "W/" <= s {
      start := 2;
    }
    if |s| - start < 2 || s[start] != '"' {
      return "", "";
    }
    var i := start + 1;
    while i < |s|
      invariant start < i <= |s|
      invariant TagLength(s) == TagEnd(s, i)
    {
      var c := s[i];
      if TagChar(c) {
      } else if c == '"' {
        return s[..i + 1], s[i + 1..];
      } else {
        return "", "";
      }
      i := i + 1;
    }
    return "", "";
  }

  // ---------------------------------------------------------------- the list

  /** What the loop answers for what is left of a header. */
  predicate Finds(etag: string, header: string)
    decreases |header|
  {
    var t := TrimLeft(header);
    if t == "" then false
    else if t[0] == ',' then Finds(etag, t[1..])
    else if t[0] == '*' then etag != ""
    else
      var n := TagLength(t);
      0 < n <= |t| && (t[..n] == etag || Finds(etag, t[n..]))
  }

  predicate Matches(etag: string, header: string) {
    header != "" && (header == etag || Finds(etag, header))
  }

  method EtagMatch(etag: string, header0: string) returns (r: bool)
    ensures r == Matches(etag, header0)
  {
    var header := header0;
    if header == "" {
      return false;
    }
    if header == etag {
      return true;
    }
    while true
      invariant Finds(etag, header0) == Finds(etag, header)
      decreases |header|
    {
      TrimTwice(etag, header);
      header := TrimLeft(header);
      if |header| == 0 {
        break;
      }
      if header[0] == ',' {
        header := header[1..];
        continue;
      }
      if header[0] == '*' {
        return etag != "";
      }
      var e, remain := ScanETag(header);
      ScanIsTag(header, e, remain);
      if e == "" {
        break;
      }
      if e == etag {
        return true;
      }
      header := remain;
    }
    return false;
  }

  lemma TrimTwice(etag: string, header: string)
    ensures TrimLeft(TrimLeft(header)) == TrimLeft(header)
    ensures Finds(etag, TrimLeft(header)) == Finds(etag, header)
  {
  }

  lemma ScanIsTag(t: string, e: string, remain: string)
    requires TrimLeft(t) == t
    requires e != "" ==> WellFormed(e) && t == e + remain
    requires e == "" ==> forall k :: 0 <= k <= |t| ==> !WellFormed(t[..k])
    ensures TagLength(t) == |e| <= |t| && t[..|e|] == e && (e != "" ==> t[|e|..] == remain)
  {
    TagLengthMeaning(t);
    if e != "" {
      assert t[..|e|] == e;
    }
  }

  // ---------------------------------------------------------------- what matching means

  /** A tag and the commas and blanks before it. */
  datatype Item = Item(separator: string, tag: string)

  predicate Items(items: seq<Item>) {
    forall i :: 0 <= i < |items| ==> Separator(items[i].separator) && WellFormed(items[i].tag)
  }

  function Text(items: seq<Item>): string {
    if items == [] then "" else items[0].separator + items[0].tag + Text(items[1..])
  }

  ghost predicate Lists(items: seq<Item>, tag: string) {
    exists i :: 0 <= i < |items| && items[i].tag == tag
  }

  lemma SkipsOne(etag: string, s: string)
    requires s != "" && (Blank(s[0]) || s[0] == ',')
    ensures Finds(etag, s) == Finds(etag, s[1..])
  {
    hide TagLength;
  }

  lemma {:induction false} SkipsSeparator(etag: string, separator: string, rest: string)
    requires Separator(separator)
    ensures Finds(etag, separator + rest) == Finds(etag, rest)
  {
    hide Finds;
    if separator == "" {
      assert separator + rest == rest;
    } else {
      SkipsOne(etag, separator + rest);
      assert (separator + rest)[1..] == separator[1..] + rest;
      SkipsSeparator(etag, separator[1..], rest);
    }
  }

  lemma ReadsTag(etag: string, tag: string, rest: string)
    requires WellFormed(tag)
    ensures Finds(etag, tag + rest) == (tag == etag || Finds(etag, rest))
  {
    var t := tag + rest;
    assert TrimLeft(t) == t && t[0] != ',' && t[0] != '*';
    TagLengthMeaning(t);
    assert t[..|tag|] == tag && t[|tag|..] == rest;
  }

  lemma {:induction false} ReadsItems(etag: string, items: seq<Item>, rest: string)
    requires Items(items)
    ensures Finds(etag, Text(items) + rest) == (Lists(items, etag) || Finds(etag, rest))
  {
    if items == [] {
      assert Text(items) + rest == rest;
    } else {
      var more := Text(items[1..]) + rest;
      assert Text(items) + rest == items[0].separator + (items[0].tag + more);
      SkipsSeparator(etag, items[0].separator, items[0].tag + more);
      ReadsTag(etag, items[0].tag, more);
      ReadsItems(etag, items[1..], rest);
      ListsMore(items, etag);
    }
  }

  lemma ListsMore(items: seq<Item>, tag: string)
    requires items != []
    ensures Lists(items, tag) <==> items[0].tag == tag || Lists(items[1..], tag)
  {
    if Lists(items, tag) && items[0].tag != tag {
      var i :| 0 <= i < |items| && items[i].tag == tag;
      assert items[1..][i - 1].tag == tag;
    }
    if Lists(items[1..], tag) {
      var i :| 0 <= i < |items[1..]| && items[1..][i].tag == tag;
      assert items[i + 1].tag == tag;
    }
  }

  /** A well-formed tag matches a list of well-formed tags exactly when it is in it. */
  lemma ListMeaning(etag: string, items: seq<Item>, tail: string)
    requires WellFormed(etag) && Items(items) && Separator(tail)
    ensures Matches(etag, Text(items) + tail) <==> Lists(items, etag)
  {
    var header := Text(items) + tail;
    ReadsItems(etag, items, tail);
    SkipsSeparator(etag, tail, "");
    assert tail + "" == tail;
    assert !Finds(etag, "");
    if header == etag {
      ReadsTag(etag, etag, "");
      assert etag + "" == header;
    }
  }

  /** The tag of an object that does not exist matches no header. */
  lemma EmptyTagMatchesNothing(header: string)
    ensures !Matches("", header)
  {
    if header != "" {
      EmptyTagIsNotFound(header);
    }
  }

  lemma {:induction false} EmptyTagIsNotFound(header: string)
    ensures !Finds("", header)
    decreases |header|
  {
    var t := TrimLeft(header);
    if t != "" {
      if t[0] == ',' {
        EmptyTagIsNotFound(t[1..]);
      } else if 0 < TagLength(t) <= |t| {
        EmptyTagIsNotFound(t[TagLength(t)..]);
      }
    }
  }

  /** A star after commas and blanks. */
  ghost predicate Star(s: string) {
    exists n :: 0 <= n < |s| && Separator(s[..n]) && s[n] == '*'
  }

  /** The tag is read, or a star stands where a tag could. */
  ghost predicate Reads(etag: string, header: string, items: seq<Item>) {
    && Items(items) && Text(items) <= header
    && (Lists(items, etag) || (etag != "" && Star(header[|Text(items)|..])))
  }

  lemma ReadIsFound(etag: string, header: string, items: seq<Item>)
    requires Reads(etag, header, items)
    ensures Finds(etag, header)
  {
    hide Finds, Text, Items, Star, Lists;
    var rest := header[|Text(items)|..];
    assert header == Text(items) + rest;
    ReadsItems(etag, items, rest);
    if !Lists(items, etag) {
      StarIsFound(etag, rest);
    }
  }

  lemma StarIsFound(etag: string, rest: string)
    requires etag != "" && Star(rest)
    ensures Finds(etag, rest)
  {
    var n :| 0 <= n < |rest| && Separator(rest[..n]) && rest[n] == '*';
    assert rest == rest[..n] + rest[n..];
    SkipsSeparator(etag, rest[..n], rest[n..]);
    assert TrimLeft(rest[n..]) == rest[n..];
  }

  lemma {:induction false} FoundIsRead(etag: string, header: string) returns (items: seq<Item>)
    requires Finds(etag, header)
    ensures Reads(etag, header, items)
    decreases |header|
  {
    hide TagLength, WellFormed, TrimLeft, Reads, Blank, Start;
    var t := TrimLeft(header);
    var blanks := OnlyBlanksAreTrimmed(header);
    if t[0] == ',' {
      items := FoundIsRead(etag, t[1..]);
      assert header == (blanks + ",") + t[1..];
      items := SeparatorBefore(etag, blanks + ",", t[1..], items);
    } else if t[0] == '*' {
      items := [];
      assert header[..|blanks|] == blanks;
      StarRead(etag, header, |blanks|);
    } else {
      var n := TagLength(t);
      TagLengthMeaning(t);
      assert header == blanks + t[..n] + t[n..];
      if t[..n] == etag {
        items := [Item(blanks, etag)];
        TagRead(etag, Item(blanks, etag), t[n..]);
      } else {
        var more := FoundIsRead(etag, t[n..]);
        items := [Item(blanks, t[..n])] + more;
        TagBefore(etag, Item(blanks, t[..n]), t[n..], more);
      }
    }
  }

  lemma StarRead(etag: string, header: string, n: nat)
    requires etag != "" && n < |header| && Separator(header[..n]) && header[n] == '*'
    ensures Reads(etag, header, [])
  {
    assert header[|Text([])|..] == header;
  }

  lemma TagRead(etag: string, item: Item, rest: string)
    requires Separator(item.separator) && WellFormed(item.tag) && item.tag == etag
    ensures Reads(etag, item.separator + item.tag + rest, [item])
  {
    hide Star;
    assert [item][1..] == [] && Text([item][1..]) == "";
    assert Text([item]) == item.separator + item.tag;
    assert [item][0].tag == etag;
  }

  lemma TagBefore(etag: string, item: Item, rest: string, items: seq<Item>)
    requires Separator(item.separator) && WellFormed(item.tag) && Reads(etag, rest, items)
    ensures Reads(etag, item.separator + item.tag + rest, [item] + items)
  {
    hide Star, Lists, WellFormed;
    var header, more := item.separator + item.tag + rest, [item] + items;
    assert more[1..] == items;
    assert Text(more) == item.separator + item.tag + Text(items);
    ListsMore(more, etag);
    assert header[|Text(more)|..] == rest[|Text(items)|..];
  }

  lemma SeparatorBefore(etag: string, separator: string, header: string, items: seq<Item>) returns (more: seq<Item>)
    requires Separator(separator) && Reads(etag, header, items)
    ensures Reads(etag, separator + header, more)
  {
    var whole := separator + header;
    if items == [] {
      more := [];
      var n :| 0 <= n < |header| && Separator(header[..n]) && header[n] == '*';
      var k := |separator| + n;
      assert whole[..k] == separator + header[..n];
      assert whole[k] == '*' && whole[|Text(more)|..] == whole;
    } else {
      more := [items[0].(separator := separator + items[0].separator)] + items[1..];
      assert more[1..] == items[1..];
      assert Text(more) == separator + Text(items);
      assert whole[|Text(more)|..] == header[|Text(items)|..];
      ListsMore(items, etag);
      ListsMore(more, etag);
    }
  }

  /** For every tag and every header: they match when they are equal, or when
      the tag is in the list that the header begins with, or a star ends that list. */
  lemma MatchMeaning(etag: string, header: string)
    ensures Matches(etag, header) <==> header != "" && (header == etag || exists items :: Reads(etag, header, items))
  {
    if Finds(etag, header) {
      var items := FoundIsRead(etag, header);
    }
    if items :| Reads(etag, header, items) {
      ReadIsFound(etag, header, items);
    }
  }

  // ---------------------------------------------------------------- the grammar

  /** The characters c of ASCII that a tag may hold (section 2.3 of RFC 7232). */
  predicate Visible(c: char) {
    Letter(c) || c in "!#$%&'()*+,-./" || c in "0123456789" || c in ":;<=>?@" || c in "[\\]^_`" || c in "{|}~"
  }

  predicate Letter(c: char) {
    c in "ABCDEFGHIJKLMNOPQRSTUVWXYZ" || c in "abcdefghijklmnopqrstuvwxyz"
  }

  lemma LetterIff(c: char)
    ensures Letter(c) <==> 0x41 <= c as int <= 0x5A || 0x61 <= c as int <= 0x7A
  {
    Consecutive("ABCDEFGHIJKLMNOPQRSTUVWXYZ", 0x41, c);
    Consecutive("abcdefghijklmnopqrstuvwxyz", 0x61, c);
  }

  /** A string of consecutive characters. */
  lemma Consecutive(s: string, first: nat, c: char)
    requires first + |s| < 128 && forall i :: 0 <= i < |s| ==> s[i] as int == first + i
    ensures c in s <==> first <= c as int < first + |s|
  {
    if first <= c as int < first + |s| {
      assert s[c as int - first] == c;
    }
  }

  /** A tag may hold the visible characters of ASCII but the double quote, and everything that is not ASCII; so no blank
      and no control character. */
  lemma TagCharIff(c: char)
    ensures TagChar(c) <==> Visible(c) || c as int > 127
  {
    hide Letter;
    LetterIff(c);
    assert "!" + "#$%&'()*+,-./" == "!#$%&'()*+,-./";
    Consecutive("#$%&'()*+,-./", 0x23, c);
    Consecutive("0123456789", 0x30, c);
    Consecutive(":;<=>?@", 0x3A, c);
    Consecutive("[\\]^_`", 0x5B, c);
    Consecutive("{|}~", 0x7B, c);
  }

  /** An entity tag by its grammar. */
  ghost predicate IsEntityTag(e: string, weak: bool, inner: string) {
    && e == (if weak then "W/" else "") + "\"" + inner + "\""
    && forall i :: 0 <= i < |inner| ==> Visible(inner[i]) || inner[i] as int > 127
  }

  /** A tag is well formed exactly if the grammar has it, and then it has it in one way. */
  lemma WellFormedIff(e: string)
    ensures WellFormed(e) <==> exists weak, inner :: IsEntityTag(e, weak, inner)
    ensures forall v, p, w, q :: IsEntityTag(e, v, p) && IsEntityTag(e, w, q) ==> v == w && p == q
  {
    hide TagChar, Visible;
    forall c: char ensures TagChar(c) <==> Visible(c) || c as int > 127 {
      TagCharIff(c);
    }
    var o := Start(e);
    if WellFormed(e) {
      var inner := e[o + 1..|e| - 1];
      assert e == (if o == 2 then "W/" else "") + "\"" + inner + "\"";
      assert IsEntityTag(e, o == 2, inner);
    }
    forall weak, inner | IsEntityTag(e, weak, inner)
      ensures WellFormed(e) && weak == (o == 2) && inner == e[o + 1..|e| - 1]
    {
      TagParts(e, weak, inner);
    }
  }

  lemma TagParts(e: string, weak: bool, inner: string)
    requires e == (if weak then "W/" else "") + "\"" + inner + "\""
    ensures Start(e) == (if weak then 2 else 0) && |e| == Start(e) + |inner| + 2
    ensures e[Start(e)] == '"' && e[|e| - 1] == '"' && e[Start(e) + 1..|e| - 1] == inner
  {
    if weak {
      assert e[..2] == "W/";
    } else {
      assert e[0] == '"';
    }
  }

  /** Tags are separated by commas, blanks, tabs and ends of lines, in any number. */
  lemma SeparatorIff(s: string)
    ensures Separator(s) <==> forall i :: 0 <= i < |s| ==> s[i] in ", \t\n\r"
  {
  }
}
