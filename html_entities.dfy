/** The five HTML character references the tools page writes and the encoding detective
    reads: the named entities for `&`, `<`, `>` and `"`, and the decimal reference for `'`. */
module HtmlEntities {
  import opened Js

  const EntityAmp: JsString := Str("&amp;")
  const EntityLt: JsString := Str("&lt;")
  const EntityGt: JsString := Str("&gt;")
  const EntityQuot: JsString := Str("&quot;")
  const EntityApos: JsString := Str("&#39;")
}
