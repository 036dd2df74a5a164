/** Catalog files and their signatures: the digest of the text that is written first, the signature that
    is put in over its last two characters, and what loading and validating make of it. */
module Signing {
  import opened Json
  import opened Wrappers

  /** The digest function, whose value is given in hexadecimal digits. */
  type Sha = string -> string

  const SIGNATURE_KEY := "_SIGNATURE"

  type Signatures = map<string, string>

  /** The text that is digested. */
  function Body(data: seq<Member>): string {
    Print(Obj(data)) + "\n"
  }

  function SignatureObject(digest: string): Value {
    Obj([Member("sha-1", Str(digest))])
  }

  /** The data with the signature as its last member. */
  function Signed(data: seq<Member>, digest: string): seq<Member> {
    data + [Member(SIGNATURE_KEY, SignatureObject(digest))]
  }

  // ----- Writing

  class JsonWriter {
    const data: seq<Member>
    const sha: Sha
    const sign: bool
    const toFile: bool
    /** The contents of the file, and what the digest has been fed. */
    var file: string
    var fed: string
    var sha1Value: Option<string>

    constructor (data: seq<Member>, sha: Sha, sign: bool, toFile: bool)
      ensures this.data == data && this.sha == sha && this.sign == sign && this.toFile == toFile
      ensures file == "" && fed == "" && sha1Value == None
    {
      this.data, this.sha, this.sign, this.toFile := data, sha, sign, toFile;
      file, fed, sha1Value := "", "", None;
    }

    method Write(chunk: string)
      modifies this`file, this`fed
      ensures if toFile then file == old(file) + chunk && fed == old(fed)
              else file == old(file) && fed == if sign then old(fed) + chunk else old(fed)
    {
      if toFile {
        file := file + chunk;
      } else if sign {
        fed := fed + chunk;
      }
    }

    /** Print an object in chunks of a certain size. */
    method Dump(v: Value, chunkSize: nat)
      requires chunkSize > 0
      modifies this`file, this`fed
      ensures if toFile then file == old(file) + Print(v) && fed == old(fed)
              else file == old(file) && fed == if sign then old(fed) + Print(v) else old(fed)
    {
      var text := Print(v);
      var i := 0;
      while i < |text|
        invariant i <= |text|
        invariant if toFile then file == old(file) + text[..i] && fed == old(fed)
                  else file == old(file) && fed == if sign then old(fed) + text[..i] else old(fed)
      {
        var n := if i + chunkSize <= |text| then i + chunkSize else |text|;
        assert text[..n] == text[..i] + text[i..n];
        Write(text[i..n]);
        i := n;
      }
      assert text[..|text|] == text;
    }

    /** Write the data; when signing, digest the text, chunk by chunk or from the file, and put the
        signature into the file. */
    method Save(chunkSize: nat)
      requires chunkSize > 0 && file == "" && fed == ""
      modifies this
      ensures sha1Value == if sign then Some(sha(Body(data))) else old(sha1Value)
      ensures toFile ==> file == if sign then Body(Signed(data, sha(Body(data)))) else Body(data)
      ensures toFile && Proper(Obj(data)) ==> IsFile(file, if sign then Signed(data, sha(Body(data))) else data)
    {
      SavedIsFile(data, sign, sha(Body(data)));
      Dump(Obj(data), chunkSize);
      Write("\n");
      assert toFile ==> file == Body(data);
      if !sign {
        return;
      }
      if !toFile {
        assert fed == Body(data);
        sha1Value := Some(sha(fed));
        return;
      }
      sha1Value := Some(sha(file));
      var offset := |file| - 2;
      SpliceIsPrint(data, sha(file), offset);
      file := file[..offset];
      if offset > 1 {
        file := file + ",";
      }
      file := file + "\"_SIGNATURE\":";
      Dump(SignatureObject(sha1Value.value), chunkSize);
      file := file + "}\n";
    }
  }

  /** The text is a JSON text of the object, and a line feed. */
  ghost predicate IsFile(text: string, members: seq<Member>) {
    exists t :: text == t + "\n" && IsJson(t, Obj(members))
  }

  lemma BodyIsFile(data: seq<Member>)
    ensures Proper(Obj(data)) ==> IsFile(Body(data), data)
  {
    if Proper(Obj(data)) {
      PrintIs(Obj(data));
    }
  }

  lemma SavedIsFile(data: seq<Member>, sign: bool, digest: string)
    ensures var saved := if sign then Signed(data, digest) else data;
            Proper(Obj(data)) ==> IsFile(Body(saved), saved)
  {
    BodyIsFile(data);
    BodyIsFile(Signed(data, digest));
    if Proper(Obj(data)) {
      assert Proper(Obj([Member("sha-1", Str(digest))]));
      assert Proper(Obj(Signed(data, digest)));
    }
  }

  lemma {:induction false} EscapePlain(s: string)
    requires forall i :: 0 <= i < |s| ==> ' ' <= s[i] <= '~' && s[i] != QUOTE && s[i] != BACKSLASH
    ensures Escape(s) == s
  {
    if s != "" {
      EscapePlain(s[1..]);
      assert s == [s[0]] + s[1..];
    }
  }

  lemma {:induction false} PrintMembersAppend(members: seq<Member>, m: Member)
    ensures PrintMembers(members + [m])
         == if members == [] then PrintMember(m) else PrintMembers(members) + "," + PrintMember(m)
    ensures PrintMembers(members) == "" <==> members == []
  {
    if members == [] {
      assert members + [m] == [m];
    } else {
      assert (members + [m])[1..] == members[1..] + [m];
      assert (members + [m])[0] == members[0];
      PrintMembersAppend(members[1..], m);
      if |members| == 1 {
        assert members[1..] == [];
      } else {
        Rejoin(PrintMember(members[0]), PrintMembers(members[1..]), PrintMember(m));
      }
    }
  }

  lemma Rejoin(a: string, b: string, c: string)
    ensures a + "," + (b + "," + c) == a + "," + b + "," + c
  {
  }

  /** Overwriting the last two characters gives an object with one more member, also when the object
      was empty. */
  lemma SpliceIsPrint(data: seq<Member>, digest: string, offset: int)
    requires offset == |Body(data)| - 2
    ensures 0 <= offset
    ensures Body(data)[..offset] + (if offset > 1 then "," else "") + "\"_SIGNATURE\":"
           + Print(SignatureObject(digest)) + "}\n"
         == Body(Signed(data, digest))
  {
    var inner, sig := PrintMembers(data), Print(SignatureObject(digest));
    BodyParts(data, inner);
    BodyParts(Signed(data, digest), PrintMembers(Signed(data, digest)));
    SignatureMember(digest);
    PrintMembersAppend(data, Member(SIGNATURE_KEY, SignatureObject(digest)));
    var comma := if offset > 1 then "," else "";
    Braces(inner, comma, PrintMember(Member(SIGNATURE_KEY, SignatureObject(digest))));
    assert PrintMembers(Signed(data, digest))
        == inner + comma + PrintMember(Member(SIGNATURE_KEY, SignatureObject(digest)));
    Regroup("{" + inner, comma, "\"_SIGNATURE\":", sig);
  }

  lemma Regroup(head: string, comma: string, name: string, sig: string)
    ensures head + comma + name + sig + "}\n" == head + comma + (name + sig) + "}\n"
  {
  }

  lemma BodyParts(data: seq<Member>, inner: string)
    requires inner == PrintMembers(data)
    ensures Body(data) == "{" + inner + "}\n" && |Body(data)| == |inner| + 3
    ensures Body(data)[..|inner| + 1] == "{" + inner
  {
    assert "}" + "\n" == "}\n";
  }

  lemma QuotedKey()
    ensures [QUOTE] + SIGNATURE_KEY + [QUOTE] + ":" == "\"_SIGNATURE\":"
  {
    assert [QUOTE] + SIGNATURE_KEY == "\"_SIGNATURE";
    assert "\"_SIGNATURE" + [QUOTE] == "\"_SIGNATURE\"";
  }

  lemma PlainMember(key: string, quoted: string, v: Value)
    requires Escape(key) == key && quoted == [QUOTE] + key + [QUOTE] + ":"
    ensures PrintMember(Member(key, v)) == quoted + Print(v)
  {
  }

  lemma SignatureMember(digest: string)
    ensures PrintMember(Member(SIGNATURE_KEY, SignatureObject(digest)))
         == "\"_SIGNATURE\":" + Print(SignatureObject(digest))
  {
    EscapePlain(SIGNATURE_KEY);
    QuotedKey();
    PlainMember(SIGNATURE_KEY, "\"_SIGNATURE\":", SignatureObject(digest));
  }

  lemma Braces(inner: string, comma: string, member: string)
    ensures "{" + (inner + comma + member) + "}\n" == "{" + inner + comma + member + "}\n"
  {
  }

  // ----- Loading

  /** struct.pop(key): the value of the last such member, and the members without it. */
  function Pop(members: seq<Member>, key: string): (Option<Value>, seq<Member>) {
    if members == [] then (None, [])
    else
      var last, r := members[|members| - 1], Pop(members[..|members| - 1], key);
      if last.key == key then (Some(last.value), r.1) else (r.0, r.1 + [last])
  }

  /** A dictionary of strings; None for anything else. */
  function AsSignatures(v: Value): Option<Signatures> {
    if v.Obj? then AsStrings(v.members) else None
  }

  function AsStrings(members: seq<Member>): Option<Signatures> {
    if members == [] then Some(map[])
    else
      var r, last := AsStrings(members[..|members| - 1]), members[|members| - 1];
      if r.None? || !last.value.Str? then None else Some(r.value[last.key := last.value.s])
  }

  /** The data and the signatures in a file; None if it is not a catalog file. */
  function Load(text: string): Option<(seq<Member>, Signatures)> {
    var r := ParseValue(text);
    if r.None? || r.value.1 !in {"", "\n"} || !r.value.0.Obj? then None
    else
      var (sig, data) := Pop(r.value.0.members, SIGNATURE_KEY);
      if sig.None? then Some((data, map[]))
      else
        var s := AsSignatures(sig.value);
        if s.None? then None else Some((data, s.value))
  }

  lemma {:induction false} PopAbsent(members: seq<Member>, key: string)
    requires forall i :: 0 <= i < |members| ==> members[i].key != key
    ensures Pop(members, key) == (None, members)
  {
    if members != [] {
      PopAbsent(members[..|members| - 1], key);
      assert members == members[..|members| - 1] + [members[|members| - 1]];
    }
  }

  /** A JSON text of an object, with or without a line feed behind it, is loaded as what it says... */
  lemma LoadReads(t: string, members: seq<Member>)
    requires IsJson(t, Obj(members))
    ensures var (sig, data) := Pop(members, SIGNATURE_KEY);
            && Load(t) == Load(t + "\n")
            && Load(t) == if sig.None? then Some((data, map[]))
                          else if AsSignatures(sig.value).None? then None
                          else Some((data, AsSignatures(sig.value).value))
  {
    ValueRead(t, Obj(members), "");
    ValueRead(t, Obj(members), "\n");
    assert t + "" == t;
  }

  /** ... and nothing else is. */
  lemma LoadOnlyReads(text: string) returns (t: string, members: seq<Member>)
    requires Load(text).Some?
    ensures text in {t, t + "\n"} && IsJson(t, Obj(members))
  {
    t := ValueParsed(text);
    members := ParseValue(text).value.0.members;
    assert t + "" == t;
  }

  /** Data that may be saved: printable, and without a signature of its own. */
  ghost predicate Savable(data: seq<Member>) {
    Proper(Obj(data)) && forall i :: 0 <= i < |data| ==> data[i].key != SIGNATURE_KEY
  }

  /** Loading a signed file gives back the data and the signature. */
  lemma LoadSigned(data: seq<Member>, digest: string)
    requires Savable(data)
    ensures Load(Body(Signed(data, digest))) == Some((data, map["sha-1" := digest]))
  {
    var all := Signed(data, digest);
    var sha1 := Member("sha-1", Str(digest));
    ParsePrint(Obj(all), "\n");
    PopAbsent(data, SIGNATURE_KEY);
    assert all[..|all| - 1] == data;
    assert [sha1][..0] == [];
    assert AsStrings([]) == Some(map[]);
    assert AsStrings([sha1]) == Some(map["sha-1" := digest]);
  }

  lemma LoadUnsigned(data: seq<Member>)
    requires Savable(data)
    ensures Load(Body(data)) == Some((data, map[]))
  {
    ParsePrint(Obj(data), "\n");
    PopAbsent(data, SIGNATURE_KEY);
  }

  // ----- Validating

  /** Compare the digest of the data with the signatures given, or else with the file's own; without any,
      and unless they are required, there is nothing to compare. */
  method Validate(data: seq<Member>, own: Signatures, given: Signatures, required: bool, sha: Sha, chunkSize: nat)
    returns (valid: bool)
    requires chunkSize > 0
    ensures valid <==> (own == map[] && given == map[] && !required)
                       || (if given == map[] then own else given) == map["sha-1" := sha(Body(data))]
  {
    if own == map[] && given == map[] && !required {
      return true;
    }
    var signatures := if given == map[] then own else given;
    var writer := new JsonWriter(data, sha, true, false);
    writer.Save(chunkSize);
    valid := map["sha-1" := writer.sha1Value.value] == signatures;
  }

  /** Save, load and validate: what is loaded is the data that was saved, and a signed file is valid, by its
      own signature and by the one that was reported when it was saved.  An unsigned one is valid unless a
      signature is required. */
  method SaveAndCheck(data: seq<Member>, sha: Sha, sign: bool, chunkSize: nat, required: bool)
    returns (text: string, loaded: seq<Member>, valid: bool)
    requires Savable(data) && chunkSize > 0
    ensures text == Body(if sign then Signed(data, sha(Body(data))) else data)
    ensures loaded == data && (valid <==> sign || !required)
  {
    var writer := new JsonWriter(data, sha, sign, true);
    writer.Save(chunkSize);
    text := writer.file;
    LoadSigned(data, sha(Body(data)));
    LoadUnsigned(data);
    var r := Load(text);
    loaded := r.value.0;
    var own := Validate(loaded, r.value.1, map[], required, sha, chunkSize);
    var reported := Validate(loaded, r.value.1, if sign then map["sha-1" := writer.sha1Value.value] else map[],
                             required, sha, chunkSize);
    assert "sha-1" in map["sha-1" := sha(Body(data))];
    valid := own && reported;
  }
}
