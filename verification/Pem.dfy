// The PEM text (section 2 of RFC 7468) that a vault import builds around a certificate.
module Pem {
  import opened Wrappers
  import opened Text
  import Base64

  const BEGIN: string := "-----BEGIN CERTIFICATE-----\n"
  const END: string := "\n-----END CERTIFICATE-----"

  const BEGIN_LINE: string := "-----BEGIN CERTIFICATE-----"
  const END_LINE: string := "-----END CERTIFICATE-----"

  /** `s` in pieces of `n` characters, the last one possibly shorter; none for "". */
  function Chunks(s: string, n: nat): (lines: seq<string>)
    requires n > 0
    ensures forall i :: 0 <= i < |lines| ==> 1 <= |lines[i]| <= n
    ensures forall i :: 0 <= i < |lines| - 1 ==> |lines[i]| == n
    decreases |s|
  {
    if |s| > n then [s[..n]] + Chunks(s[n..], n)
    else if s == "" then []
    else [s]
  }

  lemma ChunksStep(s: string, n: nat)
    requires 0 < n < |s|
    ensures Chunks(s[n..], n) != []
    ensures Chunks(s, n) == [s[..n]] + Chunks(s[n..], n)
    ensures Join(Chunks(s, n), "\n") == s[..n] + ['\n'] + Join(Chunks(s[n..], n), "\n")
  {
  }

  lemma {:induction false} ChunksSplit(s: string, n: nat)
    requires n > 0 && '\n' !in s && s != ""
    ensures Split(Join(Chunks(s, n), "\n"), '\n') == Chunks(s, n)
    decreases |s|
  {
    if |s| > n {
      ChunksStep(s, n);
      ChunksSplit(s[n..], n);
      SplitFirst(s[..n], '\n', Join(Chunks(s[n..], n), "\n"));
    } else {
      SplitWhole(s, '\n');
    }
  }

  lemma {:induction false} ChunksUnwrap(s: string, n: nat)
    requires n > 0 && '\n' !in s
    ensures Without(Join(Chunks(s, n), "\n"), '\n') == s
    decreases |s|
  {
    if |s| > n {
      ChunksStep(s, n);
      ChunksUnwrap(s[n..], n);
      var line := s[..n] + ['\n'];
      WithoutConcat(line, Join(Chunks(s[n..], n), "\n"), '\n');
      WithoutConcat(s[..n], ['\n'], '\n');
      assert s == s[..n] + s[n..];
    }
  }

  /** wrapLines. It ends for every positive width. */
  method WrapLines(text: string, n: nat) returns (result: string)
    requires n > 0
    ensures result == Join(Chunks(text, n), "\n")
  {
    var s := text;
    result := "";
    while |s| > n
      invariant s != "" || text == ""
      invariant result + Join(Chunks(s, n), "\n") == Join(Chunks(text, n), "\n")
      decreases |s|
    {
      ChunksStep(s, n);
      result := result + s[..n] + "\n";
      s := s[n..];
    }
    if s != "" {
      result := result + s;
    }
  }

  /** What a wrapped text looks like, and that its line breaks are all that was added. */
  lemma WrappedShape(s: string, n: nat)
    requires n > 0 && '\n' !in s
    ensures Without(Join(Chunks(s, n), "\n"), '\n') == s
    ensures s != "" ==>
              var lines := Split(Join(Chunks(s, n), "\n"), '\n');
              && (forall i :: 0 <= i < |lines| - 1 ==> |lines[i]| == n)
              && 1 <= |lines[|lines| - 1]| <= n
  {
    ChunksUnwrap(s, n);
    if s != "" {
      ChunksSplit(s, n);
    }
  }

  method CertificatePem(der: seq<Base64.Byte>) returns (pem: string)
    ensures pem == BEGIN + Join(Chunks(Base64.EncodeStd(der), 64), "\n") + END
  {
    var body := WrapLines(Base64.EncodeStd(der), 64);
    pem := BEGIN + body + END;
  }

  /** A reader of that text: the markers off, then base64 with line breaks skipped. */
  function ReadPem(pem: string): Option<seq<Base64.Byte>> {
    if |BEGIN| + |END| <= |pem| && pem[..|BEGIN|] == BEGIN && HasSuffix(pem, END)
    then Base64.DecodeStd(pem[|BEGIN|..|pem| - |END|])
    else None
  }

  lemma Unwrapped(begin: string, body: string, end: string)
    ensures var pem := begin + body + end;
            pem[..|begin|] == begin && HasSuffix(pem, end) && pem[|begin|..|pem| - |end|] == body
  {
  }

  /** The two markers, and between them `s` in lines of `n`, only the last of which may be shorter. */
  predicate IsFramed(lines: seq<string>, s: string, n: nat) {
    && |lines| >= 3 && lines[0] == BEGIN_LINE && lines[|lines| - 1] == END_LINE
    && (forall i :: 1 <= i < |lines| - 2 ==> |lines[i]| == n)
    && (s != "" ==> 1 <= |lines[|lines| - 2]| <= n)
    && Without(Join(lines[1..|lines| - 1], "\n"), '\n') == s
  }

  /** The text line by line, the base64 in lines of 64. */
  lemma PemLines(der: seq<Base64.Byte>)
    ensures IsFramed(Split(BEGIN + Join(Chunks(Base64.EncodeStd(der), 64), "\n") + END, '\n'), Base64.EncodeStd(der), 64)
  {
    FramedShape(Base64.EncodeStd(der), 64);
  }

  lemma Markers()
    ensures BEGIN == BEGIN_LINE + "\n" && END == "\n" + END_LINE
    ensures '\n' !in BEGIN_LINE && '\n' !in END_LINE
  {
  }

  lemma FramedShape(s: string, n: nat)
    requires n > 0 && '\n' !in s
    ensures IsFramed(Split(BEGIN + Join(Chunks(s, n), "\n") + END, '\n'), s, n)
  {
    var body := Join(Chunks(s, n), "\n");
    Markers();
    FramedLines(BEGIN_LINE, body, END_LINE);
    WrappedShape(s, n);
    JoinSplit(body, '\n');
    if s == "" { SplitWhole(body, '\n'); }
    MiddleLines(BEGIN_LINE, Split(body, '\n'), END_LINE);
  }

  lemma MiddleLines(first: string, middle: seq<string>, last: string)
    requires middle != []
    ensures var lines := [first] + middle + [last];
            && |lines| >= 3 && lines[0] == first && lines[|lines| - 1] == last && lines[1..|lines| - 1] == middle
            && lines[|lines| - 2] == middle[|middle| - 1]
            && forall i :: 1 <= i < |lines| - 2 ==> lines[i] == middle[i - 1] && i - 1 < |middle| - 1
  {
  }

  lemma FramedLines(first: string, body: string, last: string)
    requires '\n' !in first && '\n' !in last
    ensures Split((first + "\n") + body + ("\n" + last), '\n') == [first] + Split(body, '\n') + [last]
  {
    assert (first + "\n") + body + ("\n" + last) == first + ['\n'] + (body + ['\n'] + last);
    SplitFirst(first, '\n', body + ['\n'] + last);
    SplitLast(body, '\n', last);
  }

  /** Reading what was written gives the certificate back, whatever its bytes. */
  lemma PemRoundTrip(der: seq<Base64.Byte>)
    ensures ReadPem(BEGIN + Join(Chunks(Base64.EncodeStd(der), 64), "\n") + END) == Some(der)
  {
    var b64 := Base64.EncodeStd(der);
    var body := Join(Chunks(b64, 64), "\n");
    Unwrapped(BEGIN, body, END);
    WrappedShape(b64, 64);
    Base64.DecodeStdIgnoresNewlines(body, b64);
    Base64.StdRoundTrip(der);
  }
}
