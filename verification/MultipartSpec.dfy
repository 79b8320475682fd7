/**
  What a multipart/form-data body means: a reference reader over the whole text
  (section 5.1.1 of RFC 2046, section 4 of RFC 7578), the header lines it
  understands, and the writer of such bodies.
 */
module MultipartSpec {
  import opened Text
  import opened Url

  datatype File = File(name: string, filename: string, contentType: string)
  datatype Part = Part(file: File, content: string)

  const NO_FILE := File("", "", "")

  function OpeningLine(b: string): string { "--" + b + "\r\n" }

  function Delimiter(b: string): string { "\r\n--" + b }

  // ----- one header line -----

  function AfterColon(s: string): Option<string> {
    if s == "" then None else if s[0] == ':' then Some(s[1..]) else AfterColon(s[1..])
  }

  /** A name, a colon, and something other than blanks after it. */
  predicate IsHeader(line: string) {
    var s := TrimRight(line);
    AfterColon(s).Some? && s[0] != ':' && TrimLeft(AfterColon(s).value) != ""
  }

  /** What follows "Content-Disposition: form-data;", when the line is one. */
  function DispositionTail(line: string): Option<string> {
    if !StartsWithIgnoreCase(line, "Content-Disposition:") then None
    else
      var r := SkipSpace(line[20..]);
      if !StartsWithIgnoreCase(r, "form-data;") then None
      else
        var m := SkipSpace(r[10..]);
        if '\r' in m || '\n' in m then None else Some(m)
  }

  /** The first parameter called k among the ';'-separated ones, without its quotes. */
  function Lookup(kvs: seq<string>, k: string): Option<string> {
    if kvs == [] then None
    else
      match KeyValue(kvs[0])
      case Some(p) => if TrimQuotes(p.0) == k then Some(TrimQuotes(p.1)) else Lookup(kvs[1..], k)
      case None => Lookup(kvs[1..], k)
  }

  /** The text after UTF-8'' of an extended value (RFC 5987), if it is one. */
  function ExtendedValue(v: string): Option<string> {
    if |v| > 7 && StartsWithIgnoreCase(v, "UTF-8''") && '\r' !in v && '\n' !in v
    then Some(v[7..]) else None
  }

  /** What the parameters of a disposition line say about the part; None rejects the body. */
  function DispositionParams(file: File, tail: string): Option<File> {
    var kvs := Dedup(Split(tail, ';'));
    match Lookup(kvs, "name")
    case None => None
    case Some(name) =>
      var plain := match Lookup(kvs, "filename") case None => file.filename case Some(v) => v;
      match Lookup(kvs, "filename*")
      case None => Some(file.(name := name, filename := plain))
      case Some(v) =>
        match ExtendedValue(v)
        case None => None
        case Some(x) => Some(file.(name := name, filename := DecodeUrl(x, false)))
  }

  /** Effect of one header line on the part being described; None rejects the body. */
  function HeaderLine(file: File, line: string): Option<File> {
    if !IsHeader(line) then None
    else if StartsWithIgnoreCase(line, "Content-Type:") then
      Some(file.(contentType := Trim(line[13..])))
    else
      match DispositionTail(line)
      case None => Some(file)
      case Some(tail) => DispositionParams(file, tail)
  }

  // ----- the whole body -----

  /** The parts, what follows the closing delimiter, and the length of the longest header line. */
  datatype Doc = Doc(parts: seq<Part>, epilogue: string, longest: nat)

  function Prepend(p: Part, o: Option<Doc>): Option<Doc> {
    match o
    case None => None
    case Some(d) => Some(d.(parts := [p] + d.parts))
  }

  function Longer(n: nat, o: Option<Doc>): Option<Doc> {
    match o
    case None => None
    case Some(d) => Some(d.(longest := if n > d.longest then n else d.longest))
  }

  function ReadHeaderLines(b: string, file: File, t: string): Option<Doc>
    decreases |t|
  {
    var pos := Find(t, CRLF);
    if pos == |t| then None
    else if pos == 0 then ReadContent(b, file, t[2..])
    else
      match HeaderLine(file, t[..pos])
      case None => None
      case Some(f) => Longer(pos, ReadHeaderLines(b, f, t[pos + 2..]))
  }

  function ReadContent(b: string, file: File, t: string): Option<Doc>
    decreases |t|
  {
    var pos := Find(t, Delimiter(b));
    if pos == |t| then None
    else Prepend(Part(file, t[..pos]), ReadAfterDelimiter(b, t[pos + |Delimiter(b)|..]))
  }

  function ReadAfterDelimiter(b: string, t: string): Option<Doc>
    decreases |t|
  {
    if CRLF <= t then ReadHeaderLines(b, NO_FILE, t[2..])
    else if "--" <= t then Some(Doc([], t[2..], 0))
    else None
  }

  /** The body after its preamble, if it is complete and well formed. */
  function ReadBody(b: string, t: string): Option<Doc> {
    var pos := Find(t, OpeningLine(b));
    if pos == |t| then None
    else ReadHeaderLines(b, NO_FILE, t[pos + |OpeningLine(b)|..])
  }

  // ----- the writer -----

  function DispositionLine(f: File): string {
    "Content-Disposition: form-data; name=\"" + f.name + "\"" +
    (if f.filename == "" then "" else "; filename=\"" + f.filename + "\"")
  }

  function TypeLine(f: File): string { "Content-Type: " + f.contentType }

  function ItemBegin(b: string, f: File): string {
    "--" + b + "\r\n" + DispositionLine(f) + "\r\n" +
    (if f.contentType == "" then "" else TypeLine(f) + "\r\n") + "\r\n"
  }

  function Items(b: string, parts: seq<Part>): string {
    if parts == [] then ""
    else ItemBegin(b, parts[0].file) + (parts[0].content + "\r\n") + Items(b, parts[1..])
  }

  function Serialize(b: string, parts: seq<Part>): string {
    Items(b, parts) + ("--" + b + "--\r\n")
  }
}
