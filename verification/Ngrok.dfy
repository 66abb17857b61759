/** `NgrokUtils.GetNgrok`: the host-and-port part of the tunnel's public URL. */
module Ngrok {
  import opened Wrappers
  import opened DotNet

  /**
   `baseurl?.Substring(baseurl.IndexOf("//") + 2)` inside the `try` of `GetNgrok`: a null URL
   stays null, and when `Substring` throws (only for the empty URL, where the start index
   is 1) the `catch` returns null. Otherwise the result is a proper suffix of the URL.
   */
  function PrettyUrl(baseUrl: Option<string>): (r: Option<string>)
    ensures r.Some? <==> baseUrl.Some? && baseUrl.value != ""
    ensures r.Some? ==> |r.value| < |baseUrl.value| && r.value == baseUrl.value[|baseUrl.value| - |r.value|..]
  {
    match baseUrl
    case None => None
    case Some(url) =>
      var start := IndexOf(url, "//") + 2;
      if start > |url| then None else Some(url[start..])
  }

  /** With `"//"` first at `i`, the result is everything after it: `|url| - (i + 2)` characters. */
  lemma SchemeStripped(url: string, i: nat)
    requires OccursAt(url, "//", i)
    requires forall j :: 0 <= j < i ==> !OccursAt(url, "//", j)
    ensures PrettyUrl(Some(url)) == Some(url[i + 2..])
    ensures |PrettyUrl(Some(url)).value| == |url| - (i + 2)
  {
  }

  /** Without `"//"`, `IndexOf` gives -1 and only the first character is dropped. */
  lemma NoSchemeDropsFirstChar(url: string)
    requires url != []
    requires forall j :: !OccursAt(url, "//", j)
    ensures PrettyUrl(Some(url)) == Some(url[1..])
  {
  }

  lemma TunnelUrlExample()
    ensures PrettyUrl(Some("tcp://0.tcp.ngrok.io:12345")) == Some("0.tcp.ngrok.io:12345")
  {
    var url := "tcp://0.tcp.ngrok.io:12345";
    assert url[4] == '/' && url[5] == '/';
    assert url[4..6] == "//";
    forall j | 0 <= j < 4
      ensures !OccursAt(url, "//", j)
    {
      assert url[j..j + 2][0] == url[j] != '/';
    }
    SchemeStripped(url, 4);
  }
}
