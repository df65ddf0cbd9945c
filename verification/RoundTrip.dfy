/** Printing a tree and parsing the text it was printed to, as the code runs. */
module RoundTrips {
  import opened Octets
  import opened Json
  import Rendering
  import PrintBuffers
  import ParseBuffers

  /** `cJSON_Print` or `cJSON_PrintUnformatted`, and `cJSON_ParseWithOpts` on the result: unless the text could
      not be printed, the tree comes back exactly when it is nested no deeper than the parser allows. */
  method PrintAndParse(j: Json, format: bool, reallocates: bool)
      returns (printed: bool, ok: bool, item: Json, ghost exhausted: bool)
    requires NoRaw(j) && Printable(j)
    ensures printed <==> !exhausted && |Rendering.Render(j, format, 0)| + 2 <= INT_MAX
    ensures printed ==> (ok && item == j <==> Depth(j) <= NESTING_LIMIT)
  {
    ok, item := false, Null;
    var buffer;
    buffer, exhausted := PrintBuffers.Print(j, format, reallocates);
    printed := buffer != null;
    if printed {
      ghost var text := Rendering.Render(j, format, 0);
      var read := buffer[..buffer.Length - 1];
      assert read == text;
      PrintBuffers.RenderNoNul(j, format, 0);
      var position;
      ok, item, position := ParseBuffers.ParseWithOpts(read, true);
      Rendering.RoundTrip(j, format);
    }
  }
}
