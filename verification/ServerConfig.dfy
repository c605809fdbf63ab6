// server::set_config_params and the config_params constructor: from the text of the
// configuration file to the port, the server root and the routing table.
module ServerConfig {
  import opened ConfigSyntax
  import opened ConfigMachine
  import opened ConfigParser
  import opened HandlerPaths
  import opened Routing

  class ConfigParams {
    var port: int
    var serverRoot: string
    var handlerPaths: map<string, (string, NginxConfig)>

    // With no configuration.
    constructor Empty()
      ensures port == -1 && serverRoot == "" && handlerPaths == map[]
    {
      port, serverRoot, handlerPaths := -1, "", map[];
    }

    constructor FromConfig(config: NginxConfig, ghost vs: seq<Stmt>, ghost foot: set<object>)
      requires StmtsAre(config.statements, vs, foot)
      ensures port == Narrow(Port(vs))
      ensures serverRoot == ServerRoot(vs)
      ensures TableIs(handlerPaths, PathsOf(vs), foot)
    {
      hide StmtsAre, KeyValue, Port;
      var paths := config.GetHandlerPaths(map[], vs, map[], foot);
      handlerPaths := paths;
      var p := config.GetPort(vs, foot);
      port := Narrow(p);
      var root := config.GetKeyValue("root", vs, foot);
      if root == "" || root == "." {
        serverRoot := "./";
      } else if root != "/" {
        serverRoot := root + "/";
      } else {
        serverRoot := root;
      }
    }
  }

  // Read the configuration text. A rejected text leaves the parameters of no configuration;
  // an accepted one gives the parameters of its tree, and every entry of the routing table
  // holds a config whose own `location` is the entry's key.
  method SetConfigParams(text: string) returns (params: ConfigParams, ghost foot: set<object>)
    ensures ParseText(text).None? ==> params.port == -1 && params.handlerPaths == map[]
    ensures ParseText(text).Some? ==>
              var tree := ParseText(text).value;
              && params.port == Narrow(Port(tree))
              && params.serverRoot == ServerRoot(tree)
              && TableIs(params.handlerPaths, PathsOf(tree), foot)
              && KeyedByLocation(PathsOf(tree))
  {
    hide StmtsAre, ParseText, Reached, KeyedByLocation, TableIs, Port, ServerRoot, PathsOf;
    var input := new InputStream(text);
    var config := new NginxConfig();
    var ok;
    ghost var tr;
    ok, tr := Parse(input, config);
    foot := tr.foot;
    if !ok {
      params := new ConfigParams.Empty();
    } else {
      ghost var tree := ParseText(text).value;
      assert config.statements[0..] == config.statements;
      params := new ConfigParams.FromConfig(config, tree, foot);
      PathsAreKeyedByLocation(tree);
    }
  }
}
